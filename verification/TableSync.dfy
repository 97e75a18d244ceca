/** Publishing the difference between two versions of a table, and replaying it.
    The SPF engine and the multicast manager both publish this way; the map order in
    which they visit keys is arbitrary, so a difference is any list that qualifies. */
module TableSync {

  datatype Event<K, V> = Add(key: K, value: V) | Delete(key: K, value: V)

  function Apply<K, V>(table: map<K, V>, e: Event<K, V>): map<K, V> {
    match e
    case Add(k, v) => table[k := v]
    case Delete(k, _) => table - {k}
  }

  /** The table a subscriber holds after handling the events in order. */
  function Replay<K, V>(table: map<K, V>, events: seq<Event<K, V>>): map<K, V> {
    if events == [] then table
    else Apply(Replay(table, events[..|events| - 1]), events[|events| - 1])
  }

  ghost predicate Changed<K, V>(before: map<K, V>, after: map<K, V>, same: (V, V) -> bool, k: K) {
    if k in before && k in after then !same(before[k], after[k]) else k in before || k in after
  }

  /** The event reports what the key became. */
  ghost predicate Reports<K, V>(before: map<K, V>, after: map<K, V>, e: Event<K, V>) {
    match e
    case Add(k, v) => k in after && v == after[k]
    case Delete(k, v) => k in before && v == before[k] && k !in after
  }

  /** One event for each changed key of `visited`, and no other event. */
  ghost predicate DiffOn<K, V>(before: map<K, V>, after: map<K, V>, same: (V, V) -> bool,
                               events: seq<Event<K, V>>, visited: set<K>)
  {
    && (forall i :: 0 <= i < |events| ==>
          && events[i].key in visited
          && Changed(before, after, same, events[i].key)
          && Reports(before, after, events[i]))
    && (forall i, j :: 0 <= i < j < |events| ==> events[i].key != events[j].key)
    && (forall k :: k in visited && Changed(before, after, same, k) ==>
          exists i :: 0 <= i < |events| && events[i].key == k)
  }

  ghost predicate IsDiff<K, V>(before: map<K, V>, after: map<K, V>, same: (V, V) -> bool,
                               events: seq<Event<K, V>>)
  {
    DiffOn(before, after, same, events, before.Keys + after.Keys)
  }

  /** Visiting one more key that changed, and publishing an event about it. */
  lemma VisitChanged<K(!new), V>(before: map<K, V>, after: map<K, V>, same: (V, V) -> bool,
                           events: seq<Event<K, V>>, visited: set<K>, e: Event<K, V>)
    requires DiffOn(before, after, same, events, visited) && e.key !in visited
    requires Changed(before, after, same, e.key) && Reports(before, after, e)
    ensures DiffOn(before, after, same, events + [e], visited + {e.key})
  {
    var more := events + [e];
    forall x | x in visited + {e.key} && Changed(before, after, same, x)
      ensures exists i :: 0 <= i < |more| && more[i].key == x
    {
      if x == e.key {
        assert more[|events|].key == x;
      } else {
        var i :| 0 <= i < |events| && events[i].key == x;
        assert more[i].key == x;
      }
    }
  }

  lemma VisitUnchanged<K(!new), V>(before: map<K, V>, after: map<K, V>, same: (V, V) -> bool,
                                   events: seq<Event<K, V>>, visited: set<K>, k: K)
    requires DiffOn(before, after, same, events, visited) && !Changed(before, after, same, k)
    ensures DiffOn(before, after, same, events, visited + {k})
  {}

  /** The two tables have the same keys and interchangeable values. */
  ghost predicate Agree<K, V>(a: map<K, V>, b: map<K, V>, same: (V, V) -> bool) {
    a.Keys == b.Keys && forall k :: k in a ==> same(a[k], b[k])
  }

  ghost predicate Equivalence<V(!new)>(same: (V, V) -> bool) {
    && (forall a :: same(a, a))
    && (forall a, b, c :: same(a, b) && same(b, c) ==> same(a, c))
  }

  lemma {:induction false} ReplayUntouched<K, V>(table: map<K, V>, events: seq<Event<K, V>>, k: K)
    requires forall i :: 0 <= i < |events| ==> events[i].key != k
    ensures k in Replay(table, events) <==> k in table
    ensures k in table ==> Replay(table, events)[k] == table[k]
  {
    if events != [] {
      ReplayUntouched(table, events[..|events| - 1], k);
    }
  }

  /** Events about distinct keys commute: a key holds what its own event says. */
  lemma {:induction false} ReplayTouched<K, V>(table: map<K, V>, events: seq<Event<K, V>>, i: nat)
    requires i < |events|
    requires forall j :: i < j < |events| ==> events[j].key != events[i].key
    ensures match events[i]
            case Add(k, v) => k in Replay(table, events) && Replay(table, events)[k] == v
            case Delete(k, _) => k !in Replay(table, events)
  {
    var n := |events| - 1;
    if i < n {
      ReplayTouched(table, events[..n], i);
    }
  }

  /** Handling the published difference brings a subscriber that agreed with the old
      table to one that agrees with the new table. */
  lemma ReplayDiff<K(!new), V(!new)>(installed: map<K, V>, before: map<K, V>, after: map<K, V>, same: (V, V) -> bool,
                         events: seq<Event<K, V>>)
    requires Equivalence(same)
    requires Agree(installed, before, same) && IsDiff(before, after, same, events)
    ensures Agree(Replay(installed, events), after, same)
  {
    var r := Replay(installed, events);
    forall k
      ensures k in r <==> k in after
      ensures k in r && k in after ==> same(r[k], after[k])
    {
      if k in before.Keys + after.Keys && Changed(before, after, same, k) {
        var i :| 0 <= i < |events| && events[i].key == k;
        ReplayTouched(installed, events, i);
        assert Reports(before, after, events[i]);
      } else {
        ReplayUntouched(installed, events, k);
      }
    }
    assert r.Keys == after.Keys;
  }

  /** All the events of a run of recalculations, in order. */
  function AllEvents<K, V>(runs: seq<seq<Event<K, V>>>): seq<Event<K, V>> {
    if runs == [] then [] else AllEvents(runs[..|runs| - 1]) + runs[|runs| - 1]
  }

  lemma {:induction false} ReplayConcat<K, V>(table: map<K, V>, a: seq<Event<K, V>>, b: seq<Event<K, V>>)
    ensures Replay(table, a + b) == Replay(Replay(table, a), b)
  {
    if b == [] {
      assert a + b == a;
    } else {
      var n := |b| - 1;
      assert (a + b)[..|a + b| - 1] == a + b[..n];
      ReplayConcat(table, a, b[..n]);
    }
  }

  /** `runs[i]` is the difference published between `tables[i]` and `tables[i + 1]`,
      and the first table is empty. */
  ghost predicate History<K, V>(tables: seq<map<K, V>>, runs: seq<seq<Event<K, V>>>, same: (V, V) -> bool) {
    var n := |runs|;
    && |tables| == n + 1
    && if n == 0 then tables[0] == map[]
       else History(tables[..n], runs[..n - 1], same) && IsDiff(tables[n - 1], tables[n], same, runs[n - 1])
  }

  /** Over any number of recalculations, starting from nothing, the table built by
      replaying every event agrees with the last table computed. */
  lemma {:induction false} ReplayRefinesTable<K(!new), V(!new)>(tables: seq<map<K, V>>, runs: seq<seq<Event<K, V>>>,
                                                          same: (V, V) -> bool)
    requires Equivalence(same) && History(tables, runs, same)
    ensures Agree(Replay(map[], AllEvents(runs)), tables[|runs|], same)
  {
    if runs != [] {
      var n := |runs|;
      ReplayRefinesTable(tables[..n], runs[..n - 1], same);
      ReplayConcat(map[], AllEvents(runs[..n - 1]), runs[n - 1]);
      ReplayDiff(Replay(map[], AllEvents(runs[..n - 1])), tables[n - 1], tables[n], same, runs[n - 1]);
    }
  }

  // ---- When replay is exact ----

  /** Some value changed to an interchangeable one, which is not published. */
  ghost predicate Silent<K(!new), V>(before: map<K, V>, after: map<K, V>, same: (V, V) -> bool) {
    exists k :: k in before && k in after && same(before[k], after[k]) && before[k] != after[k]
  }

  lemma ReplayDiffAt<K, V>(before: map<K, V>, after: map<K, V>, same: (V, V) -> bool, events: seq<Event<K, V>>, k: K)
    requires IsDiff(before, after, same, events)
    ensures var r := Replay(before, events);
            && (k in r <==> k in after)
            && (k in after && Changed(before, after, same, k) ==> r[k] == after[k])
            && (k in after && !Changed(before, after, same, k) ==> k in before && r[k] == before[k])
  {
    if k in before.Keys + after.Keys && Changed(before, after, same, k) {
      var i :| 0 <= i < |events| && events[i].key == k;
      ReplayTouched(before, events, i);
      assert Reports(before, after, events[i]);
    } else {
      ReplayUntouched(before, events, k);
    }
  }

  /** One difference brings the old table to exactly the new one if and only if no change
      was silent. */
  lemma ReplayDiffExactIff<K(!new), V>(before: map<K, V>, after: map<K, V>, same: (V, V) -> bool,
                                       events: seq<Event<K, V>>)
    requires IsDiff(before, after, same, events)
    ensures Replay(before, events) == after <==> !Silent(before, after, same)
  {
    hide IsDiff, Replay;
    var r := Replay(before, events);
    forall k
      ensures k in r <==> k in after
      ensures k in after && Changed(before, after, same, k) ==> r[k] == after[k]
      ensures k in after && !Changed(before, after, same, k) ==> k in before && r[k] == before[k]
    {
      ReplayDiffAt(before, after, same, events, k);
    }
    if Silent(before, after, same) {
      var k :| k in before && k in after && same(before[k], after[k]) && before[k] != after[k];
      assert r[k] != after[k];
    } else {
      assert forall k :: k in after ==> r[k] == after[k];
    }
  }

  /** After each of the runs the replayed table is the computed one. */
  ghost predicate ExactUpTo<K, V>(tables: seq<map<K, V>>, runs: seq<seq<Event<K, V>>>) {
    |tables| == |runs| + 1 && forall i :: 0 <= i <= |runs| ==> Replay(map[], AllEvents(runs[..i])) == tables[i]
  }

  ghost predicate NeverSilent<K(!new), V>(tables: seq<map<K, V>>, same: (V, V) -> bool) {
    forall i :: 0 <= i < |tables| - 1 ==> !Silent(tables[i], tables[i + 1], same)
  }

  lemma ExactOneMore<K, V>(tables: seq<map<K, V>>, runs: seq<seq<Event<K, V>>>, n: nat)
    requires |runs| == n + 1 && |tables| == n + 2
    ensures ExactUpTo(tables, runs) <==>
              ExactUpTo(tables[..n + 1], runs[..n]) && Replay(map[], AllEvents(runs)) == tables[n + 1]
    ensures ExactUpTo(tables[..n + 1], runs[..n]) ==> Replay(map[], AllEvents(runs[..n])) == tables[n]
  {
    hide Replay, AllEvents;
    assert runs[..n + 1] == runs && runs[..n][..n] == runs[..n];
    forall i | 0 <= i <= n
      ensures runs[..n][..i] == runs[..i] && tables[..n + 1][i] == tables[i]
    {}
  }

  lemma SilentOneMore<K(!new), V>(tables: seq<map<K, V>>, same: (V, V) -> bool, n: nat)
    requires |tables| == n + 2
    ensures NeverSilent(tables, same) <==> NeverSilent(tables[..n + 1], same) && !Silent(tables[n], tables[n + 1], same)
  {
    hide Silent;
    forall i | 0 <= i < n
      ensures Silent(tables[i], tables[i + 1], same) <==> Silent(tables[..n + 1][i], tables[..n + 1][i + 1], same)
    {}
  }

  lemma HistoryOneMore<K, V>(tables: seq<map<K, V>>, runs: seq<seq<Event<K, V>>>, same: (V, V) -> bool, n: nat)
    requires History(tables, runs, same) && |runs| == n + 1
    ensures |tables| == n + 2 && History(tables[..n + 1], runs[..n], same)
    ensures IsDiff(tables[n], tables[n + 1], same, runs[n])
    ensures Replay(map[], AllEvents(runs)) == Replay(Replay(map[], AllEvents(runs[..n])), runs[n])
  {
    ReplayConcat(map[], AllEvents(runs[..n]), runs[n]);
  }

  /** Over any number of recalculations, the replayed table equals the computed one after
      each of them if and only if none made a silent change. */
  lemma {:induction false} ReplayExactIff<K(!new), V>(tables: seq<map<K, V>>, runs: seq<seq<Event<K, V>>>,
                                                same: (V, V) -> bool)
    requires History(tables, runs, same)
    ensures ExactUpTo(tables, runs) <==> NeverSilent(tables, same)
    decreases |runs|
  {
    if runs == [] {
      assert runs[..0] == [];
    } else {
      hide History, IsDiff, Silent, Replay, AllEvents, ExactUpTo, NeverSilent;
      var n := |runs| - 1;
      HistoryOneMore(tables, runs, same, n);
      ReplayExactIff(tables[..n + 1], runs[..n], same);
      ExactOneMore(tables, runs, n);
      SilentOneMore(tables, same, n);
      ReplayDiffExactIff(tables[n], tables[n + 1], same, runs[n]);
    }
  }

  // ---- Histories ----

  lemma {:induction false} HistoryAt<K, V>(tables: seq<map<K, V>>, runs: seq<seq<Event<K, V>>>, same: (V, V) -> bool, i: nat)
    requires History(tables, runs, same) && i < |runs|
    ensures |tables| == |runs| + 1 && tables[0] == map[] && IsDiff(tables[i], tables[i + 1], same, runs[i])
    decreases |runs|
  {
    hide IsDiff;
    var n := |runs| - 1;
    HistoryOneMore(tables, runs, same, n);
    if n == 0 {
      assert tables[..1][0] == tables[0];
    } else {
      HistoryAt(tables[..n + 1], runs[..n], same, if i < n then i else 0);
      assert tables[..n + 1][0] == tables[0];
      if i < n {
        assert runs[..n][i] == runs[i] && tables[..n + 1][i] == tables[i] && tables[..n + 1][i + 1] == tables[i + 1];
      }
    }
  }

  lemma {:induction false} DiffOver<K(!new), V>(before: map<K, V>, after: map<K, V>, same: (V, V) -> bool, keys: set<K>)
    returns (events: seq<Event<K, V>>)
    ensures DiffOn(before, after, same, events, keys)
  {
    if keys == {} {
      events := [];
    } else {
      var k :| k in keys;
      var rest := DiffOver(before, after, same, keys - {k});
      hide DiffOn;
      assert keys - {k} + {k} == keys;
      if Changed(before, after, same, k) {
        var e := if k in after then Add(k, after[k]) else Delete(k, before[k]);
        VisitChanged(before, after, same, rest, keys - {k}, e);
        events := rest + [e];
      } else {
        VisitUnchanged(before, after, same, rest, keys - {k}, k);
        events := rest;
      }
    }
  }
}
