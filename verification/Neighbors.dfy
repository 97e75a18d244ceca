/** The neighbour manager: link sensing, two-hop lists, relay selection, ageing. */
module Neighbors {
  import opened Common
  import opened Messages
  import opened GreedyCover
  import opened Expiry
  import NT = NeighborTables

  class NeighborManager {
    const routerID: IP
    var links: NT.Links
    var neighbors: NT.Neighbors
    var twoHopLinks: NT.TwoHops
    var mprSet: set<IP>
    var mprSelectors: map<IP, Nanos>
    /** How many neighbour-update events have been published. */
    var updates: nat

    ghost function State(): NT.Tables
      reads this
    {
      NT.Tables(links, neighbors, twoHopLinks, mprSet, mprSelectors)
    }

    constructor (routerID: IP)
      ensures this.routerID == routerID && State() == NT.EMPTY && updates == 0
    {
      this.routerID := routerID;
      links, neighbors, twoHopLinks, mprSet, mprSelectors, updates := map[], map[], map[], {}, map[], 0;
    }

    /** One HELLO, received from `sender` on behalf of `originator`. */
    method ProcessHello(sender: IP, originator: IP, hello: HelloMessage, vtime: Nanos, now: Nanos)
      modifies this
      ensures NT.HelloStep(routerID, old(State()), sender, originator, hello, vtime, now, State())
      ensures updates == old(updates) + (if NT.StateBefore(old(links), sender) != links[sender].state then 1 else 0)
    {
      hide NT.HearsUs, NT.SelectsUs, NT.MprChoice, NT.HeardTwoHops;
      var exp := now + vtime;
      var oldState := if sender in links then links[sender].state else NT.Asymmetric;
      var hears := CheckLocalSymmetricLink(hello.links);
      links := links[sender := NT.UpdatedLink(links, routerID, sender, hears, exp)];
      neighbors := neighbors[originator := NT.NeighborTuple(originator, links[sender].state == NT.Symmetric, hello.willingness)];

      var selected := CheckMPRSelection(hello.links);
      if selected && neighbors[originator].symmetric {
        mprSelectors := mprSelectors[originator := exp];
      }

      UpdateTwoHopLinks(originator, hello.links, exp, neighbors[originator].symmetric);
      if oldState != links[sender].state {
        RecalculateMPRs(now);
        updates := updates + 1;
      }
    }

    method CheckLocalSymmetricLink(msgs: seq<LinkMessage>) returns (r: bool)
      ensures r <==> NT.HearsUs(msgs, routerID)
    {
      for i := 0 to |msgs|
        invariant !NT.HearsUs(msgs[..i], routerID)
      {
        var lm := msgs[i];
        for j := 0 to |lm.addresses|
          invariant NT.HearingCode(lm.linkCode) ==> routerID !in lm.addresses[..j]
        {
          if lm.addresses[j] == routerID && NT.HearingCode(lm.linkCode) {
            return true;
          }
        }
        assert lm.addresses[..|lm.addresses|] == lm.addresses;
        assert forall k :: 0 <= k < i ==> msgs[..i + 1][k] == msgs[..i][k];
      }
      assert msgs[..|msgs|] == msgs;
      return false;
    }

    method CheckMPRSelection(msgs: seq<LinkMessage>) returns (r: bool)
      ensures r <==> NT.SelectsUs(msgs, routerID)
    {
      for i := 0 to |msgs|
        invariant !NT.SelectsUs(msgs[..i], routerID)
      {
        var lm := msgs[i];
        if NeighType(lm.linkCode) == NEIGH_MPR {
          for j := 0 to |lm.addresses|
            invariant routerID !in lm.addresses[..j]
          {
            if lm.addresses[j] == routerID {
              return true;
            }
          }
          assert lm.addresses[..|lm.addresses|] == lm.addresses;
        }
        assert forall k :: 0 <= k < i ==> msgs[..i + 1][k] == msgs[..i][k];
      }
      assert msgs[..|msgs|] == msgs;
      return false;
    }

    /** Replaces the originator's two-hop list by what it advertises, or drops it. */
    method UpdateTwoHopLinks(originator: IP, msgs: seq<LinkMessage>, exp: Nanos, symmetric: bool)
      modifies this`twoHopLinks
      ensures twoHopLinks == if symmetric
                             then old(twoHopLinks)[originator := NT.HeardTwoHops(msgs, routerID, originator, exp)]
                             else old(twoHopLinks) - {originator}
    {
      if !symmetric {
        twoHopLinks := twoHopLinks - {originator};
        return;
      }
      var heard: map<IP, Nanos> := map[];
      ghost var listed: set<IP> := {};
      for i := 0 to |msgs|
        invariant listed == NT.Advertised(msgs[..i]) - {routerID, originator}
        invariant heard == NT.Uniform(listed, exp) && twoHopLinks == old(twoHopLinks)
      {
        var lm := msgs[i];
        AdvertisedStep(msgs, i);
        if NT.NeighborCode(lm.linkCode) {
          ghost var before := listed;
          for j := 0 to |lm.addresses|
            invariant listed == before + (Listed(lm.addresses[..j]) - {routerID, originator})
            invariant heard == NT.Uniform(listed, exp) && twoHopLinks == old(twoHopLinks)
          {
            var a := lm.addresses[j];
            assert Listed(lm.addresses[..j + 1]) == Listed(lm.addresses[..j]) + {a};
            if a != routerID && a != originator {
              heard := heard[a := exp];
              listed := listed + {a};
            }
          }
          assert lm.addresses[..|lm.addresses|] == lm.addresses;
        }
      }
      assert msgs[..|msgs|] == msgs;
      twoHopLinks := twoHopLinks[originator := heard];
    }

    /** Chooses the relays for the current tables. */
    method RecalculateMPRs(now: Nanos)
      modifies this`mprSet
      ensures NT.MprChoice(neighbors, twoHopLinks, now, mprSet)
    {
      var symmetric1Hop := SymmetricOneHops();
      var cover := BuildTwoHopNeighborsMap(symmetric1Hop, now);
      mprSet := GreedyPicks(symmetric1Hop, cover, now);
    }

    /** The forced picks, then greedy ones until nothing is uncovered; the search for a
        pick never comes back empty, so that exit is never taken. */
    method GreedyPicks(symmetric1Hop: NT.Neighbors, cover: Cover, ghost now: Nanos) returns (newMpr: set<IP>)
      requires symmetric1Hop == map ip | ip in neighbors && NT.Willing(neighbors, ip) :: neighbors[ip]
      requires NT.IsCoverMap(cover, neighbors, twoHopLinks, now)
      ensures GreedyCoverOf(cover, NT.Candidates(neighbors, twoHopLinks), newMpr)
    {
      ghost var cands := NT.Candidates(neighbors, twoHopLinks);
      newMpr := ForcedPicks(cover);
      ghost var picks: seq<IP> := [];
      while true
        invariant GreedyRun(cover, cands, SoleCovers(cover), picks)
        invariant newMpr == SoleCovers(cover) + Elements(picks)
        decreases |Uncovered(cover, newMpr)|
      {
        var uncovered := Uncovered(cover, newMpr);
        if uncovered == {} {
          break;
        }
        var best := SelectGreedyMPR(symmetric1Hop, cover, uncovered, now);
        if best == None {
          break;
        }
        PickShrinks(cover, newMpr, best.value);
        GreedyRunSnoc(cover, cands, SoleCovers(cover), picks, best.value);
        picks := picks + [best.value];
        newMpr := newMpr + {best.value};
      }
    }

    method SymmetricOneHops() returns (r: NT.Neighbors)
      ensures r == map ip | ip in neighbors && NT.Willing(neighbors, ip) :: neighbors[ip]
    {
      r := map[];
      var todo := neighbors.Keys;
      while todo != {}
        invariant todo <= neighbors.Keys
        invariant r == map ip | ip in neighbors && ip !in todo && NT.Willing(neighbors, ip) :: neighbors[ip]
        decreases todo
      {
        var ip :| ip in todo;
        todo := todo - {ip};
        if neighbors[ip].symmetric && neighbors[ip].willingness > WILL_NEVER {
          r := r[ip := neighbors[ip]];
        }
      }
    }

    /** Groups the unexpired two-hop links by their far end. */
    method BuildTwoHopNeighborsMap(symmetric1Hop: NT.Neighbors, now: Nanos) returns (cover: Cover)
      requires symmetric1Hop == map ip | ip in neighbors && NT.Willing(neighbors, ip) :: neighbors[ip]
      ensures NT.IsCoverMap(cover, neighbors, twoHopLinks, now)
    {
      cover := map[];
      var todo := twoHopLinks.Keys;
      while todo != {}
        invariant todo <= twoHopLinks.Keys && forall t :: t in cover ==> cover[t] != {}
        invariant CoversExactly(cover, neighbors, twoHopLinks, now, twoHopLinks.Keys - todo)
        decreases todo
      {
        var oneHop :| oneHop in todo;
        NextKey(twoHopLinks.Keys, todo, oneHop);
        ghost var done := twoHopLinks.Keys - todo;
        todo := todo - {oneHop};
        if oneHop !in symmetric1Hop || !symmetric1Hop[oneHop].symmetric {
          continue;
        }
        cover := AddOneHop(cover, symmetric1Hop, done, oneHop, now);
      }
      NoKeysLeft(twoHopLinks.Keys, todo);
    }

    method AddOneHop(cover0: Cover, symmetric1Hop: NT.Neighbors, ghost done: set<IP>, oneHop: IP, now: Nanos)
      returns (cover: Cover)
      requires symmetric1Hop == map ip | ip in neighbors && NT.Willing(neighbors, ip) :: neighbors[ip]
      requires oneHop in symmetric1Hop && oneHop in twoHopLinks && oneHop !in done
      requires CoversExactly(cover0, neighbors, twoHopLinks, now, done) && forall t :: t in cover0 ==> cover0[t] != {}
      ensures CoversExactly(cover, neighbors, twoHopLinks, now, done + {oneHop}) && forall t :: t in cover ==> cover[t] != {}
    {
      cover := cover0;
      var twoHops := twoHopLinks[oneHop];
      var todo := twoHops.Keys;
      while todo != {}
        invariant todo <= twoHops.Keys && forall t :: t in cover ==> cover[t] != {}
        invariant forall h, t :: t in cover && h in cover[t] <==>
                    (t in cover0 && h in cover0[t])
                    || (h == oneHop && t in twoHops && t !in todo && NT.TwoHopLink(neighbors, twoHopLinks, now, h, t))
        decreases todo
      {
        var t :| t in todo;
        todo := todo - {t};
        if now > twoHops[t] || t in symmetric1Hop {
          continue;
        }
        cover := cover[t := (if t in cover then cover[t] else {}) + {oneHop}];
      }
    }

    /** Each node with a single cover forces that cover. */
    method ForcedPicks(cover: Cover) returns (forced: set<IP>)
      ensures forced == SoleCovers(cover)
    {
      forced := {};
      var todo := cover.Keys;
      while todo != {}
        invariant todo <= cover.Keys
        invariant forall h :: h in forced <==> exists t :: t in cover && t !in todo && cover[t] == {h}
        decreases todo
      {
        var t :| t in todo;
        todo := todo - {t};
        if |cover[t]| == 1 {
          var h :| h in cover[t];
          Singleton(cover[t], h);
          forced := forced + {h};
        } else {
          NoSingleton(cover[t]);
        }
      }
    }

    /** A best candidate for the nodes still uncovered; there always is one. */
    method SelectGreedyMPR(symmetric1Hop: NT.Neighbors, cover: Cover, uncovered: set<IP>, ghost now: Nanos)
      returns (best: Option<IP>)
      requires symmetric1Hop == map ip | ip in neighbors && NT.Willing(neighbors, ip) :: neighbors[ip]
      requires NT.IsCoverMap(cover, neighbors, twoHopLinks, now)
      requires uncovered <= cover.Keys && uncovered != {}
      ensures best.Some? && IsGreedyPick(cover, NT.Candidates(neighbors, twoHopLinks), uncovered, best.value)
    {
      ghost var cands := NT.Candidates(neighbors, twoHopLinks);
      best := None;
      var bestCount, bestWill := -1, 0;
      var todo := symmetric1Hop.Keys;
      while todo != {}
        invariant todo <= symmetric1Hop.Keys && symmetric1Hop.Keys == cands.Keys
        invariant best == None ==> bestCount == -1 && forall k :: k in cands && k !in todo ==> Gain(cover, uncovered, k) == 0
        invariant best.Some? ==> best.value in cands && bestCount == Gain(cover, uncovered, best.value) > 0
                                 && bestWill == cands[best.value].willingness
        invariant best.Some? ==> forall k :: k in cands && k !in todo ==>
                    NoBetter(Gain(cover, uncovered, k), cands[k], bestCount, cands[best.value])
        decreases todo
      {
        var oneHop :| oneHop in todo;
        todo := todo - {oneHop};
        var count := Gain(cover, uncovered, oneHop);
        var will := symmetric1Hop[oneHop].willingness;
        if count == 0 {
          continue;
        }
        if count > bestCount {
          bestCount, best, bestWill := count, Some(oneHop), will;
        } else if count == bestCount {
          if will > bestWill {
            best, bestWill := Some(oneHop), will;
          } else if will == bestWill {
            if NT.Degree(twoHopLinks, oneHop) > NT.Degree(twoHopLinks, best.value) {
              best := Some(oneHop);
            }
          }
        }
      }
      SomeoneGains(cover, neighbors, twoHopLinks, now, uncovered);
    }

    /** Ages links, two-hop entries and selectors; reports whether anything changed. */
    method AgeOut(now: Nanos) returns (changed: bool)
      modifies this
      ensures changed <==> NT.Ages(old(State()), now)
      ensures NT.AgeStep(old(State()), now, State())
      ensures updates == old(updates) + (if changed then 1 else 0)
    {
      hide NT.MprChoice, NT.AgedTwoHops, NT.AgedLinks, NT.AgedNeighbors, NT.NewlyLost, AnyExpired, Unexpired;
      var c1 := AgeLinks(now);
      var c2 := AgeTwoHops(now);
      var c3 := AgeSelectors(now);
      changed := c1 || c2 || c3;
      NT.AgesInOrder(old(State()), now);
      if changed {
        RecalculateMPRs(now);
        updates := updates + 1;
      }
    }

    method AgeLinks(now: Nanos) returns (changed: bool)
      modifies this`links, this`neighbors, this`twoHopLinks
      ensures changed <==> NT.NewlyLost(old(links), now) != {}
      ensures links == NT.AgedLinks(old(links), now)
      ensures neighbors == NT.AgedNeighbors(old(neighbors), NT.NewlyLost(old(links), now))
      ensures twoHopLinks == old(twoHopLinks) - NT.NewlyLost(old(links), now)
    {
      changed := false;
      var all := links;
      ghost var lost: set<IP> := {};
      var todo := all.Keys;
      while todo != {}
        invariant todo <= all.Keys
        invariant lost == NT.NewlyLost(all, now) - todo
        invariant changed <==> lost != {}
        invariant links == NT.WithLost(all, lost)
        invariant neighbors == NT.AgedNeighbors(old(neighbors), lost)
        invariant twoHopLinks == old(twoHopLinks) - lost
        decreases todo
      {
        var ip :| ip in todo;
        todo := todo - {ip};
        NT.LoseOne(all, old(neighbors), lost, ip);
        if now > links[ip].expiration {
          if links[ip].state != NT.Lost {
            links := links[ip := links[ip].(state := NT.Lost)];
            changed := true;
            if ip in neighbors {
              neighbors := neighbors[ip := neighbors[ip].(symmetric := false)];
            }
            twoHopLinks := twoHopLinks - {ip};
            lost := lost + {ip};
          }
        }
      }
      assert lost == NT.NewlyLost(all, now);
    }

    method AgeTwoHops(now: Nanos) returns (changed: bool)
      modifies this`twoHopLinks
      ensures changed <==> exists h :: h in old(twoHopLinks) && AnyExpired(old(twoHopLinks)[h], now)
      ensures twoHopLinks == NT.AgedTwoHops(old(twoHopLinks), now)
    {
      hide Unexpired, AnyExpired;
      changed := false;
      var all := twoHopLinks;
      var todo := all.Keys;
      while todo != {}
        invariant todo <= all.Keys
        invariant changed <==> exists h :: h in all && h !in todo && AnyExpired(all[h], now)
        invariant twoHopLinks == map h | h in all && (h in todo || Unexpired(all[h], now) != map[])
                                       :: if h in todo then all[h] else Unexpired(all[h], now)
        decreases todo
      {
        var h :| h in todo;
        todo := todo - {h};
        var kept, expired := Prune(all[h], now);
        changed := changed || expired;
        if kept == map[] {
          twoHopLinks := twoHopLinks - {h};
        } else {
          twoHopLinks := twoHopLinks[h := kept];
        }
      }
    }

    method AgeSelectors(now: Nanos) returns (changed: bool)
      modifies this`mprSelectors
      ensures changed <==> AnyExpired(old(mprSelectors), now)
      ensures mprSelectors == Unexpired(old(mprSelectors), now)
    {
      var kept, expired := Prune(mprSelectors, now);
      mprSelectors := kept;
      changed := expired;
    }

    /** The neighbours whose link is not lost, symmetric or not. */
    method GetNeighbors() returns (r: seq<NT.NeighborTuple>)
      ensures NT.Lists(links, neighbors, r)
    {
      r := [];
      var todo := neighbors.Keys;
      while todo != {}
        invariant todo <= neighbors.Keys
        invariant forall n :: n in r <==>
                    exists ip :: ip in neighbors && ip !in todo && n == neighbors[ip]
                                 && n.neighborIP in links && links[n.neighborIP].state != NT.Lost
        decreases todo
      {
        var ip :| ip in todo;
        todo := todo - {ip};
        var n := neighbors[ip];
        if n.neighborIP in links && links[n.neighborIP].state != NT.Lost {
          r := r + [n];
        }
      }
    }

    /** The selectors whose entry has not expired, each once. */
    method GetMPRSelectors(now: Nanos) returns (r: seq<IP>)
      ensures forall ip :: ip in r <==> IsSelector(ip, now)
      ensures forall i, j :: 0 <= i < j < |r| ==> r[i] != r[j]
    {
      r := [];
      var todo := mprSelectors.Keys;
      while todo != {}
        invariant todo <= mprSelectors.Keys
        invariant forall ip :: ip in r <==> ip !in todo && IsSelector(ip, now)
        invariant forall i, j :: 0 <= i < j < |r| ==> r[i] != r[j]
        decreases todo
      {
        var ip :| ip in todo;
        todo := todo - {ip};
        if now < mprSelectors[ip] {
          r := r + [ip];
        }
      }
    }

    /** Whether `ip` is among the selectors whose entry has not expired. */
    predicate IsSelector(ip: IP, now: Nanos)
      reads this
    {
      ip in mprSelectors && now < mprSelectors[ip]
    }
  }

  /** The cover map is right as far as the one-hop nodes of `done` go. */
  ghost predicate CoversExactly(cover: Cover, neighbors: NT.Neighbors, twoHops: NT.TwoHops, now: Nanos, done: set<IP>) {
    forall h, t :: (h in done && NT.TwoHopLink(neighbors, twoHops, now, h, t)) <==> t in cover && h in cover[t]
  }

  lemma NoSingleton<T(!new)>(s: set<T>)
    requires |s| != 1
    ensures forall x: T :: s != {x}
  {
    assert forall x: T :: |{x}| == 1;
  }

  lemma Singleton<T>(s: set<T>, x: T)
    requires |s| == 1 && x in s
    ensures s == {x}
  {
    assert |s - {x}| == 0;
    assert s == s - {x} + {x};
  }

  lemma SomeoneGains(cover: Cover, neighbors: NT.Neighbors, twoHops: NT.TwoHops, now: Nanos, uncovered: set<IP>)
    requires NT.IsCoverMap(cover, neighbors, twoHops, now)
    requires uncovered <= cover.Keys && uncovered != {}
    ensures exists h :: h in NT.Candidates(neighbors, twoHops) && Gain(cover, uncovered, h) > 0
  {
    var t :| t in uncovered;
    var h :| h in cover[t];
    assert NT.TwoHopLink(neighbors, twoHops, now, h, t);
    assert t in Gained(cover, uncovered, h);
    assert Gain(cover, uncovered, h) > 0;
    assert h in NT.Candidates(neighbors, twoHops);
  }

  ghost function Listed(addresses: seq<IP>): set<IP> {
    set a | a in addresses
  }

  lemma AdvertisedStep(msgs: seq<LinkMessage>, i: nat)
    requires i < |msgs|
    ensures NT.Advertised(msgs[..i + 1]) ==
            NT.Advertised(msgs[..i]) + (if NT.NeighborCode(msgs[i].linkCode) then Listed(msgs[i].addresses) else {})
  {
    var a, b := msgs[..i], msgs[..i + 1];
    assert forall k :: 0 <= k < i ==> b[k] == a[k];
    assert b[i] == msgs[i];
    forall x | x in NT.Advertised(a)
      ensures x in NT.Advertised(b)
    {
      var k :| 0 <= k < |a| && NT.NeighborCode(a[k].linkCode) && x in a[k].addresses;
      assert NT.NeighborCode(b[k].linkCode) && x in b[k].addresses;
    }
    if NT.NeighborCode(msgs[i].linkCode) {
      assert forall x :: x in msgs[i].addresses ==> x in NT.Advertised(b);
    }
  }
}
