/** How long what a HELLO says is kept: the neighbour tables after a HELLO and after an
    ageing pass, entry by entry, and links over whole runs. */
module LinkLife {
  import opened Common
  import opened Messages
  import opened Expiry
  import opened NeighborTables

  // ---- Link codes, in numbers ----

  /** The sender lists us under a link type asymmetric (1) or symmetric (2), in the low two
      bits, or a neighbour type symmetric (1) or relay (2), in the next two. */
  lemma HearsUsInNumbers(links: seq<LinkMessage>, me: IP)
    ensures HearsUs(links, me) <==>
              exists i :: 0 <= i < |links| && me in links[i].addresses
                          && (links[i].linkCode % 4 in {1, 2} || links[i].linkCode / 4 % 4 in {1, 2})
  {}

  lemma SelectsUsInNumbers(links: seq<LinkMessage>, me: IP)
    ensures SelectsUs(links, me) <==>
              exists i :: 0 <= i < |links| && me in links[i].addresses && links[i].linkCode / 4 % 4 == 2
  {}

  lemma AdvertisedInNumbers(links: seq<LinkMessage>, a: IP)
    ensures a in Advertised(links) <==>
              exists i :: 0 <= i < |links| && a in links[i].addresses && links[i].linkCode / 4 % 4 in {1, 2}
  {}

  // ---- One HELLO ----

  /** The sender's link is renewed to now + vtime whatever it was before: it is symmetric
      if the sender hears us and asymmetric otherwise, the time that goes with that state is
      set and the other one kept. No other link changes. */
  lemma HelloRenewsLink(me: IP, s: Tables, sender: IP, originator: IP, hello: HelloMessage, vtime: Nanos, now: Nanos, s': Tables)
    requires HelloStep(me, s, sender, originator, hello, vtime, now, s')
    ensures sender in s'.links && s'.links.Keys == s.links.Keys + {sender}
    ensures s'.links[sender].expiration == now + vtime
    ensures HearsUs(hello.links, me) ==> s'.links[sender].state == Symmetric && s'.links[sender].symTime == now + vtime
                                         && s'.links[sender].asymTime == if sender in s.links then s.links[sender].asymTime else 0
    ensures !HearsUs(hello.links, me) ==> s'.links[sender].state == Asymmetric && s'.links[sender].asymTime == now + vtime
                                          && s'.links[sender].symTime == if sender in s.links then s.links[sender].symTime else 0
    ensures sender !in s.links ==> s'.links[sender].localIP == me && s'.links[sender].neighborIP == sender
    ensures sender in s.links ==> s'.links[sender].localIP == s.links[sender].localIP
                                  && s'.links[sender].neighborIP == s.links[sender].neighborIP
    ensures forall ip :: ip in s.links && ip != sender ==> s'.links[ip] == s.links[ip]
  {
    hide HearsUs, MprChoice;
  }

  /** The originator's neighbour entry says what the HELLO says; no other entry changes. */
  lemma HelloRenewsNeighbor(me: IP, s: Tables, sender: IP, originator: IP, hello: HelloMessage, vtime: Nanos, now: Nanos, s': Tables)
    requires HelloStep(me, s, sender, originator, hello, vtime, now, s')
    ensures s'.neighbors.Keys == s.neighbors.Keys + {originator}
    ensures s'.neighbors[originator].neighborIP == originator && s'.neighbors[originator].willingness == hello.willingness
    ensures s'.neighbors[originator].symmetric <==> HearsUs(hello.links, me)
    ensures forall ip :: ip in s.neighbors && ip != originator ==> s'.neighbors[ip] == s.neighbors[ip]
  {
    hide HearsUs, MprChoice;
  }

  /** Its two-hop list is what it names as neighbours, until now + vtime, if it hears us,
      and is dropped otherwise; no other list changes. */
  lemma HelloRenewsTwoHops(me: IP, s: Tables, sender: IP, originator: IP, hello: HelloMessage, vtime: Nanos, now: Nanos, s': Tables)
    requires HelloStep(me, s, sender, originator, hello, vtime, now, s')
    ensures originator in s'.twoHops <==> HearsUs(hello.links, me)
    ensures HearsUs(hello.links, me) ==>
              forall t :: t in s'.twoHops[originator] <==> t in Advertised(hello.links) && t != me && t != originator
    ensures HearsUs(hello.links, me) ==> forall t :: t in s'.twoHops[originator] ==> s'.twoHops[originator][t] == now + vtime
    ensures forall h :: h != originator ==> (h in s'.twoHops <==> h in s.twoHops) && (h in s.twoHops ==> s'.twoHops[h] == s.twoHops[h])
  {
    hide HearsUs, Advertised, MprChoice;
  }

  /** A HELLO that hears us and names us as relay makes its originator a selector until
      now + vtime; otherwise, and for all others, nothing changes. */
  lemma HelloRenewsSelector(me: IP, s: Tables, sender: IP, originator: IP, hello: HelloMessage, vtime: Nanos, now: Nanos, s': Tables)
    requires HelloStep(me, s, sender, originator, hello, vtime, now, s')
    ensures SelectsUs(hello.links, me) ==> HearsUs(hello.links, me)
    ensures SelectsUs(hello.links, me) ==> originator in s'.mprSelectors && s'.mprSelectors[originator] == now + vtime
    ensures !SelectsUs(hello.links, me) ==> s'.mprSelectors == s.mprSelectors
    ensures forall ip :: ip != originator ==> (ip in s'.mprSelectors <==> ip in s.mprSelectors)
                                              && (ip in s.mprSelectors ==> s'.mprSelectors[ip] == s.mprSelectors[ip])
  {
    SelectsUsInNumbers(hello.links, me);
    HearsUsInNumbers(hello.links, me);
    hide HearsUs, SelectsUs, MprChoice;
  }

  /** And the relays are chosen anew exactly if the sender's link was not in the state that
      it is in now; a new link counts as asymmetric before. */
  lemma HelloRecalculates(me: IP, s: Tables, sender: IP, originator: IP, hello: HelloMessage, vtime: Nanos, now: Nanos, s': Tables)
    requires HelloStep(me, s, sender, originator, hello, vtime, now, s')
    ensures var same := if sender in s.links then s.links[sender].state == s'.links[sender].state else !HearsUs(hello.links, me);
            if same then s'.mprSet == s.mprSet else MprChoice(s'.neighbors, s'.twoHops, now, s'.mprSet)
  {
    hide HearsUs, MprChoice;
  }

  // ---- One ageing pass ----

  /** Exactly the links past their expiration are lost, and nothing else about a link
      changes. */
  lemma AgingLosesLinks(s: Tables, now: Nanos, s': Tables)
    requires AgeStep(s, now, s')
    ensures s'.links.Keys == s.links.Keys
    ensures forall ip :: ip in s.links ==>
              && (s'.links[ip].state == Lost <==> s.links[ip].state == Lost || now > s.links[ip].expiration)
              && (s'.links[ip].state != Lost ==> s'.links[ip].state == s.links[ip].state)
              && s'.links[ip] == s.links[ip].(state := s'.links[ip].state)
  {
    hide MprChoice, Ages, AgedTwoHops, AgedNeighbors;
  }

  /** The link was not lost, and this pass loses it. */
  predicate LostNow(s: Tables, now: Nanos, ip: IP) {
    ip in s.links && s.links[ip].state != Lost && now > s.links[ip].expiration
  }

  /** A neighbour whose link is lost now is symmetric no more; nothing else changes. */
  lemma AgingClearsFlags(s: Tables, now: Nanos, s': Tables)
    requires AgeStep(s, now, s')
    ensures s'.neighbors.Keys == s.neighbors.Keys
    ensures forall ip :: ip in s.neighbors ==>
              s'.neighbors[ip] == if LostNow(s, now, ip) then s.neighbors[ip].(symmetric := false) else s.neighbors[ip]
  {
    hide MprChoice, Ages, AgedTwoHops, AgedLinks;
  }

  /** A two-hop entry is kept exactly if it has not expired and its list's link is not lost
      now; no list stays behind empty. */
  lemma AgingDropsTwoHops(s: Tables, now: Nanos, s': Tables, h: IP, t: IP)
    requires AgeStep(s, now, s')
    ensures h in s'.twoHops && t in s'.twoHops[h] <==>
              h in s.twoHops && t in s.twoHops[h] && now <= s.twoHops[h][t] && !LostNow(s, now, h)
    ensures h in s'.twoHops && t in s'.twoHops[h] ==> s'.twoHops[h][t] == s.twoHops[h][t]
    ensures h in s'.twoHops ==> s'.twoHops[h] != map[]
  {
    hide MprChoice, Ages, AgedNeighbors, AgedLinks;
    assert s'.twoHops == AgedTwoHops(s.twoHops - NewlyLost(s.links, now), now);
    if h in s.twoHops && t in s.twoHops[h] && now <= s.twoHops[h][t] {
      assert t in Unexpired(s.twoHops[h], now);
    }
  }

  /** Exactly the unexpired selectors are kept. */
  lemma AgingDropsSelectors(s: Tables, now: Nanos, s': Tables, ip: IP)
    requires AgeStep(s, now, s')
    ensures ip in s'.mprSelectors <==> ip in s.mprSelectors && now <= s.mprSelectors[ip]
    ensures ip in s'.mprSelectors ==> s'.mprSelectors[ip] == s.mprSelectors[ip]
  {
    hide MprChoice, Ages, AgedTwoHops, AgedNeighbors, AgedLinks;
  }

  /** Relays are chosen anew exactly if a link was lost or some entry expired. */
  lemma AgingRecalculates(s: Tables, now: Nanos, s': Tables)
    requires AgeStep(s, now, s')
    ensures var expired := (exists ip :: LostNow(s, now, ip))
                           || (exists h, t :: h in s.twoHops && t in s.twoHops[h] && now > s.twoHops[h][t])
                           || (exists ip :: ip in s.mprSelectors && now > s.mprSelectors[ip]);
            && (Ages(s, now) <==> expired)
            && (expired ==> MprChoice(s'.neighbors, s'.twoHops, now, s'.mprSet))
            && (!expired ==> s'.mprSet == s.mprSet)
  {
    hide MprChoice, AgedTwoHops, AgedNeighbors, AgedLinks;
    if ip :| LostNow(s, now, ip) {
      assert ip in NewlyLost(s.links, now);
    }
    if NewlyLost(s.links, now) != {} {
      var ip :| ip in NewlyLost(s.links, now);
      assert LostNow(s, now, ip);
    }
    if h, t :| h in s.twoHops && t in s.twoHops[h] && now > s.twoHops[h][t] {
      assert AnyExpired(s.twoHops[h], now);
    }
  }

  // ---- Over whole runs ----

  /** Steps i up to j, of which none is a HELLO from that sender. */
  ghost predicate NoHelloFrom(steps: seq<Step>, sender: IP, i: nat, j: nat) {
    j <= |steps| && forall k :: i <= k < j && steps[k].HelloReceived? ==> steps[k].sender != sender
  }

  ghost predicate AgedAfter(steps: seq<Step>, i: nat, j: nat, t: Nanos) {
    exists k :: i <= k < j && k < |steps| && steps[k].Aged? && steps[k].at > t
  }

  /** A link that a HELLO renewed to time t stays as it is until the first ageing pass after
      t, which loses it, as long as no other HELLO comes from its sender. */
  lemma {:induction false} LinkLives(me: IP, steps: seq<Step>, states: seq<Tables>, i: nat, j: nat)
    requires Run(me, steps, states) && i < j <= |steps| && steps[i].HelloReceived? && NoHelloFrom(steps, steps[i].sender, i + 1, j)
    ensures var a, t := steps[i].sender, steps[i].at + steps[i].vtime;
            && a in states[j].links && states[j].links[a].expiration == t
            && states[j].links[a].state ==
                 if AgedAfter(steps, i + 1, j, t) then Lost
                 else if HearsUs(steps[i].hello.links, me) then Symmetric
                 else Asymmetric
    decreases j
  {
    hide HelloStep, AgeStep, HearsUs;
    var a, t := steps[i].sender, steps[i].at + steps[i].vtime;
    var s, s', step := states[j - 1], states[j], steps[j - 1];
    assert StepTo(me, s, step, s');
    if j == i + 1 {
      HelloRenewsLink(me, s, step.sender, step.originator, step.hello, step.vtime, step.at, s');
    } else {
      LinkLives(me, steps, states, i, j - 1);
      match step {
        case HelloReceived(sender, originator, hello, vtime, at) =>
          HelloRenewsLink(me, s, sender, originator, hello, vtime, at, s');
        case Aged(at) =>
          AgingLosesLinks(s, at, s');
      }
      AgedOneMore(steps, i + 1, j - 1, t);
    }
  }

  lemma AgedOneMore(steps: seq<Step>, i: nat, j: nat, t: Nanos)
    requires i <= j < |steps|
    ensures AgedAfter(steps, i, j + 1, t) <==> AgedAfter(steps, i, j, t) || (steps[j].Aged? && steps[j].at > t)
  {}

  /** A router that was named as relay counts the originator as a selector until the first
      ageing pass after the HELLO's time, as long as no other HELLO from it names us. */
  lemma {:induction false} SelectorLives(me: IP, steps: seq<Step>, states: seq<Tables>, i: nat, j: nat)
    requires Run(me, steps, states) && i < j <= |steps| && steps[i].HelloReceived? && SelectsUs(steps[i].hello.links, me)
    requires forall k :: i < k < j && steps[k].HelloReceived? && steps[k].originator == steps[i].originator ==>
               !SelectsUs(steps[k].hello.links, me)
    ensures var o, t := steps[i].originator, steps[i].at + steps[i].vtime;
            if AgedAfter(steps, i + 1, j, t) then o !in states[j].mprSelectors
            else o in states[j].mprSelectors && states[j].mprSelectors[o] == t
    decreases j
  {
    hide HelloStep, AgeStep, SelectsUs;
    var o, t := steps[i].originator, steps[i].at + steps[i].vtime;
    var s, s', step := states[j - 1], states[j], steps[j - 1];
    assert StepTo(me, s, step, s');
    if j == i + 1 {
      HelloRenewsSelector(me, s, step.sender, step.originator, step.hello, step.vtime, step.at, s');
    } else {
      SelectorLives(me, steps, states, i, j - 1);
      match step {
        case HelloReceived(sender, originator, hello, vtime, at) =>
          HelloRenewsSelector(me, s, sender, originator, hello, vtime, at, s');
        case Aged(at) =>
          AgingDropsSelectors(s, at, s', o);
      }
      AgedOneMore(steps, i + 1, j - 1, t);
    }
  }

  // ---- Relays, in numbers ----

  lemma WillingInNumbers(neighbors: Neighbors, h: IP)
    ensures Willing(neighbors, h) <==> h in neighbors && neighbors[h].symmetric && neighbors[h].willingness >= 1
  {}

  /** After a choice, every node that is not itself a willing symmetric neighbour and has an
      unexpired entry in the list of one has an unexpired entry in a relay's list. */
  lemma ChoiceInNumbers(neighbors: Neighbors, twoHops: TwoHops, now: Nanos, mprs: set<IP>)
    requires MprChoice(neighbors, twoHops, now, mprs)
    ensures forall m :: m in mprs ==> m in neighbors && neighbors[m].symmetric && neighbors[m].willingness >= 1
    ensures forall h, t ::
              h in neighbors && neighbors[h].symmetric && neighbors[h].willingness >= 1
              && h in twoHops && t in twoHops[h] && now <= twoHops[h][t]
              && !(t in neighbors && neighbors[t].symmetric && neighbors[t].willingness >= 1) ==>
                exists m :: m in mprs && m in twoHops && t in twoHops[m] && now <= twoHops[m][t]
  {
    hide MprChoice;
    MprCoverage(neighbors, twoHops, now, mprs);
    forall h, t |
      h in neighbors && neighbors[h].symmetric && neighbors[h].willingness >= 1
      && h in twoHops && t in twoHops[h] && now <= twoHops[h][t]
      && !(t in neighbors && neighbors[t].symmetric && neighbors[t].willingness >= 1)
      ensures exists m :: m in mprs && m in twoHops && t in twoHops[m] && now <= twoHops[m][t]
    {
      assert TwoHopLink(neighbors, twoHops, now, h, t);
      var m :| m in mprs && Reaches(neighbors, twoHops, now, m, t);
    }
  }

  /** A candidate stands by its willingness, and then by how many two-hop entries it has,
      expired or not. */
  lemma CandidatesInNumbers(neighbors: Neighbors, twoHops: TwoHops, h: IP)
    ensures h in Candidates(neighbors, twoHops) <==> h in neighbors && neighbors[h].symmetric && neighbors[h].willingness >= 1
    ensures h in Candidates(neighbors, twoHops) ==>
              && Candidates(neighbors, twoHops)[h].willingness == neighbors[h].willingness
              && Candidates(neighbors, twoHops)[h].degree == if h in twoHops then |twoHops[h]| else 0
  {}
}
