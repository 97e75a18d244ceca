/** The topology manager: the duplicate table, the advertised links and the aliases. */
module Topology {
  import opened Common
  import opened RouteTables
  import opened Expiry
  import D = Duplicates
  import A = Aliases

  /** Destination, then last hop, then the tuple. */
  type Tuples = map<IP, map<IP, TopologyTuple>>

  predicate Known(t: Tuples, dest: IP, last: IP) {
    dest in t && last in t[dest]
  }

  /** The rule by which an advertised sequence number replaces a stored one; the
      subtraction cannot wrap because the comparison before it failed. */
  predicate Accepts(stored: uint16, ansn: uint16) {
    ansn >= stored || stored - ansn > 32768
  }

  /** Section 19 of RFC 3626: s1 is greater than s2 in wrap-around order. */
  predicate Newer(s1: uint16, s2: uint16) {
    (s1 > s2 && s1 - s2 <= 32768) || (s2 > s1 && s2 - s1 > 32768)
  }

  /** The rule accepts whatever is newer or the same, and beyond that exactly the stale
      numbers that lie more than half the range above the stored one. */
  lemma AcceptsExactly(stored: uint16, ansn: uint16)
    ensures Accepts(stored, ansn) <==> Newer(ansn, stored) || ansn == stored || ansn - stored > 32768
    ensures ansn - stored > 32768 ==> Newer(stored, ansn)
  {}

  function Put(t: Tuples, dest: IP, last: IP, x: TopologyTuple): Tuples {
    t[dest := (if dest in t then t[dest] else map[])[last := x]]
  }

  /** What advertising dest makes of its tuple. */
  function Advertised(t: Tuples, dest: IP, last: IP, ansn: uint16, exp: Nanos): TopologyTuple {
    if !Known(t, dest, last) || Accepts(t[dest][last].seqNum, ansn)
    then TopologyTuple(dest, last, ansn, exp) else t[dest][last]
  }

  /** Whether advertising dest changes its tuple's number or time. */
  predicate Refreshes(t: Tuples, dest: IP, last: IP, ansn: uint16) {
    !Known(t, dest, last) || Accepts(t[dest][last].seqNum, ansn)
  }

  /** The tuples of the listed destinations are what advertising made of them, and no
      other tuple was added, removed or changed. */
  ghost predicate TcEffect(before: Tuples, after: Tuples, last: IP, ansn: uint16, listed: seq<IP>, exp: Nanos) {
    forall d, l ::
      if l == last && d in listed
      then Known(after, d, l) && after[d][l] == Advertised(before, d, l, ansn, exp)
      else (Known(after, d, l) <==> Known(before, d, l)) && (Known(after, d, l) ==> after[d][l] == before[d][l])
  }

  /** Advertising one more destination, which may have been listed before. */
  lemma TcStep(before: Tuples, t: Tuples, last: IP, ansn: uint16, listed: seq<IP>, dest: IP, exp: Nanos)
    requires TcEffect(before, t, last, ansn, listed, exp)
    ensures var t' := if Refreshes(t, dest, last, ansn) then Put(t, dest, last, TopologyTuple(dest, last, ansn, exp)) else t;
            TcEffect(before, t', last, ansn, listed + [dest], exp)
    ensures Refreshes(t, dest, last, ansn) ==> Refreshes(before, dest, last, ansn)
    ensures Refreshes(before, dest, last, ansn) && dest !in listed ==> Refreshes(t, dest, last, ansn)
  {
    var t' := if Refreshes(t, dest, last, ansn) then Put(t, dest, last, TopologyTuple(dest, last, ansn, exp)) else t;
    forall d, l
      ensures if l == last && d in listed + [dest]
              then Known(t', d, l) && t'[d][l] == Advertised(before, d, l, ansn, exp)
              else (Known(t', d, l) <==> Known(before, d, l)) && (Known(t', d, l) ==> t'[d][l] == before[d][l])
    {
      assert d in listed + [dest] <==> d in listed || d == dest;
      assert Known(t', d, l) <==> Known(t, d, l) || (Refreshes(t, dest, last, ansn) && d == dest && l == last);
    }
  }

  function KeptTuples(m: map<IP, TopologyTuple>, now: Nanos): map<IP, TopologyTuple> {
    map l | l in m && now <= m[l].expiration :: m[l]
  }

  function AgedTuples(t: Tuples, now: Nanos): Tuples {
    map d | d in t && KeptTuples(t[d], now) != map[] :: KeptTuples(t[d], now)
  }

  ghost predicate AnyStale(m: map<IP, TopologyTuple>, now: Nanos) {
    exists l :: l in m && now > m[l].expiration
  }

  /** Ageing keeps exactly the unexpired tuples. */
  lemma AgedExactly(t: Tuples, now: Nanos, dest: IP, last: IP)
    ensures Known(AgedTuples(t, now), dest, last) <==> Known(t, dest, last) && now <= t[dest][last].expiration
    ensures Known(AgedTuples(t, now), dest, last) ==> AgedTuples(t, now)[dest][last] == t[dest][last]
  {
    if Known(t, dest, last) && now <= t[dest][last].expiration {
      assert last in KeptTuples(t[dest], now);
    }
  }

  /** Tuples are filed under their own addresses. */
  ghost predicate Filed(t: Tuples) {
    forall dest, last :: Known(t, dest, last) ==> t[dest][last].dest == dest && t[dest][last].last == last
  }

  class TopologyManager {
    var topology: Tuples
    var duplicates: D.Dups
    var midMap: map<IP, seq<IP>>
    var reverseMidMap: map<IP, IP>
    /** How many topology-update events have been published. */
    var updates: nat

    ghost predicate Valid()
      reads this
    {
      Filed(topology)
    }

    function Mids(): A.Mids
      reads this
    {
      A.Mids(midMap, reverseMidMap)
    }

    constructor ()
      ensures Valid() && topology == map[] && duplicates == map[] && Mids() == A.EMPTY && updates == 0
    {
      topology, duplicates, midMap, reverseMidMap, updates := map[], map[], map[], map[], 0;
    }

    /** Checks whether a message was already received, and records it if not. */
    method IsDuplicate(originator: IP, seqNum: uint16, vtime: Nanos, now: Nanos) returns (dup: bool)
      modifies this`duplicates
      ensures dup <==> D.Live(old(duplicates), originator, seqNum, now)
      ensures duplicates == D.AfterQuery(old(duplicates), originator, seqNum, vtime, now)
    {
      var seqs := if originator in duplicates then duplicates[originator] else map[];
      if seqNum in seqs && now < seqs[seqNum] {
        return true;
      }
      duplicates := duplicates[originator := seqs[seqNum := now + vtime]];
      dup := false;
    }

    /** Records the links that a topology message advertises; links it does not list
        stay as they are. */
    method ProcessTC(originator: IP, ansn: uint16, addresses: seq<IP>, vtime: Nanos, now: Nanos)
      modifies this`topology, this`updates
      ensures TcEffect(old(topology), topology, originator, ansn, addresses, now + vtime)
      ensures old(Valid()) ==> Valid()
      ensures (exists d :: d in addresses && Refreshes(old(topology), d, originator, ansn)) <==> updates == old(updates) + 1
      ensures updates == old(updates) || updates == old(updates) + 1
    {
      var exp := now + vtime;
      var updated := false;
      var before := topology;
      for i := 0 to |addresses|
        invariant updates == old(updates)
        invariant TcEffect(before, topology, originator, ansn, addresses[..i], exp)
        invariant updated <==> exists d :: d in addresses[..i] && Refreshes(before, d, originator, ansn)
      {
        var dest := addresses[i];
        assert addresses[..i + 1] == addresses[..i] + [dest];
        TcStep(before, topology, originator, ansn, addresses[..i], dest, exp);
        if Refreshes(topology, dest, originator, ansn) {
          topology := Put(topology, dest, originator, TopologyTuple(dest, originator, ansn, exp));
          updated := true;
        }
      }
      assert addresses[..|addresses|] == addresses;
      if updated {
        updates := updates + 1;
      }
    }

    /** Replaces the primary's aliases by those it declares now. */
    method ProcessMID(primary: IP, addresses: seq<IP>)
      modifies this`midMap, this`reverseMidMap, this`updates
      ensures Mids() == A.Declare(old(Mids()), primary, addresses)
      ensures updates == old(updates) + 1
    {
      hide A.WithAll, A.WithoutAll;
      assert addresses[..0] == [];
      A.WithoutNone(reverseMidMap);
      if primary in midMap {
        var before := midMap[primary];
        assert before[..0] == [];
        for i := 0 to |before|
          invariant midMap == old(midMap) && updates == old(updates)
          invariant reverseMidMap == A.WithoutAll(old(reverseMidMap), before[..i])
        {
          A.WithoutOneMore(old(reverseMidMap), before, i);
          reverseMidMap := reverseMidMap - {before[i]};
        }
        assert before[..|before|] == before;
      }
      ghost var cleared := reverseMidMap;
      A.WithNone(cleared, primary);
      for i := 0 to |addresses|
        invariant midMap == old(midMap) && updates == old(updates)
        invariant reverseMidMap == A.WithAll(cleared, addresses[..i], primary)
      {
        A.WithOneMore(cleared, addresses, i, primary);
        reverseMidMap := reverseMidMap[addresses[i] := primary];
      }
      assert addresses[..|addresses|] == addresses;
      midMap := midMap[primary := addresses];
      updates := updates + 1;
    }

    /** The primary address of a known alias; any other address is its own. */
    function GetPrimaryAddress(ip: IP): (r: IP)
      reads this
      ensures forall primary :: A.ResolvesTo(Mids(), ip, primary) ==> r == primary
      ensures (forall primary :: !A.ResolvesTo(Mids(), ip, primary)) ==> r == ip
    {
      assert ip in reverseMidMap ==> A.ResolvesTo(Mids(), ip, reverseMidMap[ip]);
      if ip in reverseMidMap then reverseMidMap[ip] else ip
    }

    /** Removes expired tuples and duplicate entries. */
    method AgeOut(now: Nanos) returns (changed: bool)
      modifies this`topology, this`duplicates, this`updates
      ensures topology == AgedTuples(old(topology), now)
      ensures old(Valid()) ==> Valid()
      ensures duplicates == D.AfterAging(old(duplicates), now)
      ensures changed <==> exists d :: d in old(topology) && AnyStale(old(topology)[d], now)
      ensures updates == old(updates) + (if changed then 1 else 0)
    {
      changed := AgeTuples(now);
      AgeDuplicates(now);
      if changed {
        updates := updates + 1;
      }
      forall dest, last | Known(topology, dest, last)
        ensures Known(old(topology), dest, last) && topology[dest][last] == old(topology)[dest][last]
      {
        AgedExactly(old(topology), now, dest, last);
      }
    }

    method AgeTuples(now: Nanos) returns (changed: bool)
      modifies this`topology
      ensures topology == AgedTuples(old(topology), now)
      ensures changed <==> exists d :: d in old(topology) && AnyStale(old(topology)[d], now)
    {
      changed := false;
      var all := topology;
      var todo := all.Keys;
      while todo != {}
        invariant todo <= all.Keys
        invariant topology == map d | d in all && (d in todo || KeptTuples(all[d], now) != map[])
                                    :: if d in todo then all[d] else KeptTuples(all[d], now)
        invariant changed <==> exists d :: d in all && d !in todo && AnyStale(all[d], now)
        decreases todo
      {
        var d :| d in todo;
        todo := todo - {d};
        var kept := KeptTuples(all[d], now);
        if kept.Keys != all[d].Keys {
          changed := true;
        }
        assert AnyStale(all[d], now) <==> kept.Keys != all[d].Keys;
        topology := if kept == map[] then topology - {d} else topology[d := kept];
      }
    }

    method AgeDuplicates(now: Nanos)
      modifies this`duplicates
      ensures duplicates == D.AfterAging(old(duplicates), now)
    {
      var all := duplicates;
      var todo := all.Keys;
      while todo != {}
        invariant todo <= all.Keys
        invariant duplicates == map o | o in all && (o in todo || Unexpired(all[o], now) != map[])
                                      :: if o in todo then all[o] else Unexpired(all[o], now)
        decreases todo
      {
        var o :| o in todo;
        todo := todo - {o};
        var kept, _ := Prune(all[o], now);
        duplicates := if kept == map[] then duplicates - {o} else duplicates[o := kept];
      }
    }
  }

  /** What a topology message does to one tuple, in numbers: a listed destination's tuple is
      new, or replaced unless the stored number is greater by at most 32768, and then it
      lasts until exp; every other tuple stays as it is. */
  lemma TcExactly(before: Tuples, after: Tuples, last: IP, ansn: uint16, listed: seq<IP>, exp: Nanos, d: IP, l: IP)
    requires TcEffect(before, after, last, ansn, listed, exp)
    ensures var known := d in before && l in before[d];
            if l == last && d in listed && (!known || ansn >= before[d][l].seqNum || before[d][l].seqNum - ansn > 32768)
            then d in after && l in after[d] && after[d][l] == TopologyTuple(d, l, ansn, exp)
            else (d in after && l in after[d] <==> known) && (known ==> after[d][l] == before[d][l])
  {
    assert Known(before, d, l) <==> d in before && l in before[d];
    assert Known(after, d, l) <==> d in after && l in after[d];
  }

  /** And a tuple written until exp is gone after the first ageing past it, not before. */
  lemma TupleLasts(t: Tuples, d: IP, l: IP, now: Nanos)
    requires d in t && l in t[d]
    ensures d in AgedTuples(t, now) && l in AgedTuples(t, now)[d] <==> now <= t[d][l].expiration
  {
    AgedExactly(t, now, d, l);
  }
}
