/** Multiple interface declarations: which primary address an alias resolves to after
    any run of declarations. */
module Aliases {
  import opened Common

  /** What each primary declared last, and the primary of each alias. */
  datatype Mids = Mids(declared: map<IP, seq<IP>>, primaryOf: map<IP, IP>)

  const EMPTY := Mids(map[], map[])

  predicate Declares(m: Mids, primary: IP, a: IP) {
    primary in m.declared && a in m.declared[primary]
  }

  predicate ResolvesTo(m: Mids, a: IP, primary: IP) {
    a in m.primaryOf && m.primaryOf[a] == primary
  }

  function WithoutAll(t: map<IP, IP>, aliases: seq<IP>): map<IP, IP> {
    map a | a in t && a !in aliases :: t[a]
  }

  function WithAll(t: map<IP, IP>, aliases: seq<IP>, primary: IP): map<IP, IP> {
    map a | a in t.Keys + (set x | x in aliases) :: if a in aliases then primary else t[a]
  }

  lemma WithoutNone(t: map<IP, IP>)
    ensures WithoutAll(t, []) == t
  {}

  lemma WithNone(t: map<IP, IP>, primary: IP)
    ensures WithAll(t, [], primary) == t
  {}

  lemma WithoutOneMore(t: map<IP, IP>, aliases: seq<IP>, i: nat)
    requires i < |aliases|
    ensures WithoutAll(t, aliases[..i + 1]) == WithoutAll(t, aliases[..i]) - {aliases[i]}
  {
    assert aliases[..i + 1] == aliases[..i] + [aliases[i]];
  }

  lemma WithOneMore(t: map<IP, IP>, aliases: seq<IP>, i: nat, primary: IP)
    requires i < |aliases|
    ensures WithAll(t, aliases[..i + 1], primary) == WithAll(t, aliases[..i], primary)[aliases[i] := primary]
  {
    assert aliases[..i + 1] == aliases[..i] + [aliases[i]];
  }

  /** Forgets what the primary's previous list said, then enters the new one. */
  function Declare(m: Mids, primary: IP, aliases: seq<IP>): Mids {
    var before := if primary in m.declared then m.declared[primary] else [];
    Mids(m.declared[primary := aliases], WithAll(WithoutAll(m.primaryOf, before), aliases, primary))
  }

  datatype Declaration = Declaration(primary: IP, aliases: seq<IP>)

  function After(ds: seq<Declaration>): Mids {
    if ds == [] then EMPTY
    else var d := ds[|ds| - 1]; Declare(After(ds[..|ds| - 1]), d.primary, d.aliases)
  }

  /** Whether the i-th declaration enters or removes alias a. */
  predicate Touches(ds: seq<Declaration>, i: nat, a: IP)
    requires i < |ds|
  {
    a in ds[i].aliases || Declares(After(ds[..i]), ds[i].primary, a)
  }

  /** The i-th declaration lists a, and none after it lists or withdraws it. */
  ghost predicate LastWord(ds: seq<Declaration>, i: nat, a: IP, primary: IP) {
    && i < |ds| && ds[i].primary == primary && a in ds[i].aliases
    && forall j :: i < j < |ds| ==> !Touches(ds, j, a)
  }

  lemma TouchesPrefix(ds: seq<Declaration>, n: nat, j: nat, a: IP)
    requires j < n <= |ds|
    ensures Touches(ds[..n], j, a) <==> Touches(ds, j, a)
  {
    assert ds[..n][..j] == ds[..j];
  }

  lemma LastWordNext(ds: seq<Declaration>, n: nat, a: IP, primary: IP)
    requires |ds| == n + 1
    ensures (exists i: nat :: LastWord(ds, i, a, primary)) <==>
              if Touches(ds, n, a) then ds[n].primary == primary && a in ds[n].aliases
              else exists i: nat :: LastWord(ds[..n], i, a, primary)
  {
    hide Touches;
    forall j | 0 <= j < n
      ensures Touches(ds[..n], j, a) <==> Touches(ds, j, a)
    {
      TouchesPrefix(ds, n, j, a);
    }
    if Touches(ds, n, a) {
      if ds[n].primary == primary && a in ds[n].aliases {
        assert LastWord(ds, n, a, primary);
      }
    } else {
      if i: nat :| LastWord(ds[..n], i, a, primary) {
        assert LastWord(ds, i, a, primary);
      }
      if i: nat :| LastWord(ds, i, a, primary) {
        if i == n {
          ListingTouches(ds, n, a);
        } else {
          assert LastWord(ds[..n], i, a, primary);
        }
      }
    }
  }

  lemma ListingTouches(ds: seq<Declaration>, n: nat, a: IP)
    requires n < |ds| && a in ds[n].aliases
    ensures Touches(ds, n, a)
  {}

  /** After any run of declarations, an alias resolves to a primary exactly if that
      primary had the last word on it. */
  lemma {:induction false} ResolvedByLastWord(ds: seq<Declaration>, a: IP, primary: IP)
    ensures ResolvesTo(After(ds), a, primary) <==> exists i: nat :: LastWord(ds, i, a, primary)
  {
    hide LastWord;
    if ds == [] {
      assert forall i: nat :: !LastWord(ds, i, a, primary) by {
        NoLastWord(a, primary);
      }
    } else {
      var n := |ds| - 1;
      ResolvedByLastWord(ds[..n], a, primary);
      LastWordNext(ds, n, a, primary);
    }
  }

  lemma NoLastWord(a: IP, primary: IP)
    ensures forall i: nat :: !LastWord([], i, a, primary)
  {}

  /** An alias resolves to nobody but a primary whose latest declaration lists it. */
  ghost predicate Sound(m: Mids) {
    forall a, primary :: ResolvesTo(m, a, primary) ==> Declares(m, primary, a)
  }

  /** And every declared alias resolves to whoever declared it. */
  ghost predicate Consistent(m: Mids) {
    forall a, primary :: ResolvesTo(m, a, primary) <==> Declares(m, primary, a)
  }

  /** No other primary has one of the aliases in its list. */
  ghost predicate Unclaimed(m: Mids, primary: IP, aliases: seq<IP>) {
    forall a, other :: a in aliases && other != primary ==> !Declares(m, other, a)
  }

  lemma DeclareKeepsSound(m: Mids, primary: IP, aliases: seq<IP>)
    requires Sound(m)
    ensures Sound(Declare(m, primary, aliases))
  {
    var m' := Declare(m, primary, aliases);
    forall a, p | ResolvesTo(m', a, p)
      ensures Declares(m', p, a)
    {
      assert a !in aliases ==> ResolvesTo(m, a, p);
    }
  }

  lemma {:induction false} RunsAreSound(ds: seq<Declaration>)
    ensures Sound(After(ds))
  {
    if ds != [] {
      var d := ds[|ds| - 1];
      RunsAreSound(ds[..|ds| - 1]);
      DeclareKeepsSound(After(ds[..|ds| - 1]), d.primary, d.aliases);
    }
  }

  /** A declaration keeps the two tables consistent exactly if none of its aliases is in
      another primary's list. */
  lemma DeclareConsistentIff(m: Mids, primary: IP, aliases: seq<IP>)
    requires Consistent(m)
    ensures Consistent(Declare(m, primary, aliases)) <==> Unclaimed(m, primary, aliases)
  {
    var m' := Declare(m, primary, aliases);
    if a, other :| a in aliases && other != primary && Declares(m, other, a) {
      assert Declares(m', other, a) && !ResolvesTo(m', a, other);
    } else {
      forall a, p
        ensures ResolvesTo(m', a, p) <==> Declares(m', p, a)
      {
        assert p != primary ==> (Declares(m', p, a) <==> Declares(m, p, a));
        assert ResolvesTo(m, a, p) <==> Declares(m, p, a);
        assert ResolvesTo(m, a, primary) <==> Declares(m, primary, a);
      }
    }
  }

  /** If a primary takes over another's alias and then drops it, the alias resolves to
      nobody, although the other still declares it. */
  lemma TakeoverLosesAlias(p: IP, q: IP, a: IP)
    requires p != q
    ensures var m := After([Declaration(p, [a]), Declaration(q, [a]), Declaration(q, [])]);
            Declares(m, p, a) && a !in m.primaryOf
  {
    var d1, d2, d3 := Declaration(p, [a]), Declaration(q, [a]), Declaration(q, []);
    AfterOneMore([], d1);
    AfterOneMore([d1], d2);
    AfterOneMore([d1, d2], d3);
    assert [] + [d1] == [d1] && [d1] + [d2] == [d1, d2] && [d1, d2] + [d3] == [d1, d2, d3];
  }

  lemma AfterOneMore(ds: seq<Declaration>, d: Declaration)
    ensures After(ds + [d]) == Declare(After(ds), d.primary, d.aliases)
  {
    assert (ds + [d])[..|ds|] == ds;
  }
}
