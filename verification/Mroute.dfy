/** The kernel multicast router: virtual interface numbers and forwarding entries. The
    kernel is an oracle that may refuse any call; what it accepted is remembered here. */
module Mroute {
  import opened Common

  const MAX_VIFS: nat := 32

  /** A forwarding entry as handed to the kernel: a parent VIF and a TTL per VIF. */
  datatype KernelMfc = KernelMfc(parent: nat, ttls: seq<uint8>)

  type VifMap = map<int, nat>

  /** Interface numbers have distinct VIF numbers below `next`. */
  ghost predicate Injective(vifs: VifMap, next: nat) {
    && (forall i :: i in vifs ==> vifs[i] < next)
    && (forall i, j :: i in vifs && j in vifs && vifs[i] == vifs[j] ==> i == j)
  }

  /** The entry's parent is interface iif's VIF, and its TTLs are set for exactly the
      VIFs of the interfaces in oifs. */
  ghost predicate Decodes(vifs: VifMap, m: KernelMfc, iif: int, oifs: set<int>) {
    && |m.ttls| == MAX_VIFS
    && iif in vifs && vifs[iif] == m.parent
    && (forall o :: o in oifs ==> o in vifs && vifs[o] < MAX_VIFS && m.ttls[vifs[o]] == 1)
    && (forall v :: 0 <= v < MAX_VIFS && m.ttls[v] != 0 ==> exists o :: o in oifs && o in vifs && vifs[o] == v)
  }

  /** An entry decodes to one interface set only. */
  lemma DecodesUniquely(vifs: VifMap, next: nat, m: KernelMfc, iif1: int, oifs1: set<int>, iif2: int, oifs2: set<int>)
    requires Injective(vifs, next)
    requires Decodes(vifs, m, iif1, oifs1) && Decodes(vifs, m, iif2, oifs2)
    ensures iif1 == iif2 && oifs1 == oifs2
  {
    DecodesWithin(vifs, next, m, iif1, oifs1, iif2, oifs2);
    DecodesWithin(vifs, next, m, iif2, oifs2, iif1, oifs1);
  }

  lemma DecodesWithin(vifs: VifMap, next: nat, m: KernelMfc, iif1: int, oifs1: set<int>, iif2: int, oifs2: set<int>)
    requires Injective(vifs, next)
    requires Decodes(vifs, m, iif1, oifs1) && Decodes(vifs, m, iif2, oifs2)
    ensures oifs1 <= oifs2
  {
    forall o | o in oifs1
      ensures o in oifs2
    {
      var v := vifs[o];
      assert m.ttls[v] != 0;
      var p :| p in oifs2 && p in vifs && vifs[p] == v;
    }
  }

  /** No mapping is ever changed or dropped. */
  predicate Extends(vifs: VifMap, more: VifMap) {
    forall i :: i in vifs ==> i in more && more[i] == vifs[i]
  }

  lemma DecodesLater(vifs: VifMap, more: VifMap, m: KernelMfc, iif: int, oifs: set<int>)
    requires Decodes(vifs, m, iif, oifs) && Extends(vifs, more)
    ensures Decodes(more, m, iif, oifs)
  {
    forall v | 0 <= v < MAX_VIFS && m.ttls[v] != 0
      ensures exists o :: o in oifs && o in more && more[o] == v
    {
      var o :| o in oifs && o in vifs && vifs[o] == v;
    }
  }

  /** What registering one interface does to the counter. A number is used up by
      every attempt, even one that fails. */
  function NextAfter(vifs: VifMap, next: nat, ifindex: int): nat {
    if ifindex in vifs || next >= MAX_VIFS then next else next + 1
  }

  predicate Registers(vifs: VifMap, next: nat, ifindex: int, accepted: bool) {
    ifindex in vifs || (next < MAX_VIFS && ifindex >= 0 && accepted)
  }

  /** The TTLs are one at the VIFs of the listed interfaces and zero elsewhere. */
  ghost predicate TtlsFor(vifs: VifMap, ttls: seq<uint8>, oifs: seq<int>) {
    && |ttls| == MAX_VIFS
    && (forall o :: o in oifs ==> o in vifs && vifs[o] < MAX_VIFS && ttls[vifs[o]] == 1)
    && (forall v :: 0 <= v < MAX_VIFS && ttls[v] != 0 ==> exists o :: o in oifs && o in vifs && vifs[o] == v)
  }

  /** Setting the TTL of one more registered interface. */
  lemma TtlsStep(vifs: VifMap, more: VifMap, ttls: seq<uint8>, oifs: seq<int>, o: int)
    requires TtlsFor(vifs, ttls, oifs) && Extends(vifs, more) && o in more && more[o] < MAX_VIFS
    ensures TtlsFor(more, ttls[more[o] := 1], oifs + [o])
  {
    var ttls' := ttls[more[o] := 1];
    forall v | 0 <= v < MAX_VIFS && ttls'[v] != 0
      ensures exists p :: p in oifs + [o] && p in more && more[p] == v
    {
      if v == more[o] {
        assert o in oifs + [o];
      } else {
        var p :| p in oifs && p in vifs && vifs[p] == v;
        assert p in oifs + [o];
      }
    }
  }

  lemma NoTtls(vifs: VifMap, ttls: seq<uint8>)
    requires |ttls| == MAX_VIFS && forall v :: 0 <= v < MAX_VIFS ==> ttls[v] == 0
    ensures TtlsFor(vifs, ttls, [])
  {}

  lemma TtlsDecode(vifs: VifMap, parent: nat, ttls: seq<uint8>, iif: int, oifs: seq<int>)
    requires TtlsFor(vifs, ttls, oifs) && iif in vifs && vifs[iif] == parent
    ensures Decodes(vifs, KernelMfc(parent, ttls), iif, set o | o in oifs)
  {}

  lemma RegisterFirst(a: Allocator, x: int, accepted: int -> bool)
    ensures RegisterAll(a, [x], accepted) == (Try(a, Attempt(x, accepted(x))), Registers(a.vifs, a.next, x, accepted(x)))
  {
    assert [x][..0] == [];
  }

  lemma RegisterNext(a: Allocator, xs: seq<int>, accepted: int -> bool, i: nat)
    requires i < |xs| && RegisterAll(a, xs[..i], accepted).1
    ensures var b := RegisterAll(a, xs[..i], accepted).0;
            RegisterAll(a, xs[..i + 1], accepted) ==
              (Try(b, Attempt(xs[i], accepted(xs[i]))), Registers(b.vifs, b.next, xs[i], accepted(xs[i])))
  {
    assert xs[..i + 1][..i] == xs[..i];
  }

  // ---- Runs of registrations ----

  datatype Allocator = Allocator(vifs: VifMap, next: nat)

  datatype Attempt = Attempt(ifindex: int, accepted: bool)

  function Try(a: Allocator, t: Attempt): Allocator {
    Allocator(if t.ifindex !in a.vifs && Registers(a.vifs, a.next, t.ifindex, t.accepted) then a.vifs[t.ifindex := a.next] else a.vifs,
              NextAfter(a.vifs, a.next, t.ifindex))
  }

  function TryAll(a: Allocator, ts: seq<Attempt>): Allocator {
    if ts == [] then a else Try(TryAll(a, ts[..|ts| - 1]), ts[|ts| - 1])
  }

  /** Registering several interfaces, stopping at the first that fails. */
  function RegisterAll(a: Allocator, xs: seq<int>, accepted: int -> bool): (Allocator, bool) {
    if xs == [] then (a, true)
    else
      var n := |xs| - 1;
      var (b, ok) := RegisterAll(a, xs[..n], accepted);
      if !ok then (b, false)
      else (Try(b, Attempt(xs[n], accepted(xs[n]))), Registers(b.vifs, b.next, xs[n], accepted(xs[n])))
  }

  /** A failure at some point of the list is the outcome of the whole list. */
  lemma {:induction false} FirstFailureDecides(a: Allocator, xs: seq<int>, accepted: int -> bool, i: nat)
    requires i <= |xs| && !RegisterAll(a, xs[..i], accepted).1
    ensures RegisterAll(a, xs, accepted) == RegisterAll(a, xs[..i], accepted)
    decreases |xs|
  {
    var n := |xs| - 1;
    if i == |xs| {
      assert xs[..i] == xs;
    } else {
      assert xs[..n][..i] == xs[..i];
      FirstFailureDecides(a, xs[..n], accepted, i);
    }
  }

  /** Across any successes and failures the map stays injective below the counter, the
      counter never exceeds 32, and no mapping changes. */
  lemma {:induction false} AllocationStaysInjective(a: Allocator, ts: seq<Attempt>)
    requires Injective(a.vifs, a.next) && a.next <= MAX_VIFS
    ensures var b := TryAll(a, ts); Injective(b.vifs, b.next) && a.next <= b.next <= MAX_VIFS && Extends(a.vifs, b.vifs)
  {
    if ts != [] {
      AllocationStaysInjective(a, ts[..|ts| - 1]);
    }
  }

  /** Failures use numbers up for good: once 32 attempts at new interfaces were made,
      every further new interface is refused, even if none was ever registered. */
  lemma {:induction false} FailuresExhaust(ts: seq<Attempt>, t: Attempt)
    requires |ts| >= MAX_VIFS && forall i :: 0 <= i < |ts| ==> !ts[i].accepted
    ensures var a := TryAll(Allocator(map[], 0), ts);
            a.vifs == map[] && !Registers(a.vifs, a.next, t.ifindex, t.accepted)
  {
    FailuresCounted(ts);
  }

  lemma {:induction false} FailuresCounted(ts: seq<Attempt>)
    requires forall i :: 0 <= i < |ts| ==> !ts[i].accepted
    ensures var a := TryAll(Allocator(map[], 0), ts);
            a.vifs == map[] && a.next == if |ts| < MAX_VIFS then |ts| else MAX_VIFS
  {
    if ts != [] {
      FailuresCounted(ts[..|ts| - 1]);
    }
  }

  class LinuxMulticastRouter {
    var started: bool
    var vifMap: VifMap
    var nextVif: nat
    /** The forwarding entries the kernel holds. */
    var installed: map<(uint32, uint32), KernelMfc>

    ghost function Allocation(): Allocator
      reads this
    {
      Allocator(vifMap, nextVif)
    }

    ghost predicate Valid()
      reads this
    {
      nextVif <= MAX_VIFS && Injective(vifMap, nextVif)
    }

    constructor ()
      ensures Valid() && !started && vifMap == map[] && nextVif == 0 && installed == map[]
    {
      started, vifMap, nextVif, installed := false, map[], 0, map[];
    }

    /** Opens the routing socket unless it is open already. */
    method Start(accepted: bool) returns (ok: bool)
      modifies this`started
      ensures ok <==> old(started) || accepted
      ensures started == ok
    {
      if started {
        return true;
      }
      started := accepted;
      ok := accepted;
    }

    /** Closing the socket makes the kernel forget everything, and so does the router. */
    method Stop()
      requires Valid()
      modifies this
      ensures Valid() && !started
      ensures old(started) ==> vifMap == map[] && nextVif == 0 && installed == map[]
      ensures !old(started) ==> vifMap == old(vifMap) && nextVif == old(nextVif) && installed == old(installed)
    {
      if !started {
        return;
      }
      started, vifMap, nextVif, installed := false, map[], 0, map[];
    }

    method RegisterVif(ifindex: int, accepted: bool) returns (vif: Option<nat>)
      requires Valid()
      modifies this`vifMap, this`nextVif
      ensures Valid() && Extends(old(vifMap), vifMap)
      ensures vif.Some? <==> Registers(old(vifMap), old(nextVif), ifindex, accepted)
      ensures Allocation() == Try(old(Allocation()), Attempt(ifindex, accepted))
      ensures vif.Some? ==> ifindex in vifMap && vifMap[ifindex] == vif.value < MAX_VIFS
    {
      if ifindex in vifMap {
        return Some(vifMap[ifindex]);
      }
      if nextVif >= MAX_VIFS {
        return None;
      }
      var v := nextVif;
      nextVif := nextVif + 1;
      if ifindex < 0 || !accepted {
        return None;
      }
      vifMap := vifMap[ifindex := v];
      vif := Some(v);
    }

    /** Installs a forwarding entry. On success the kernel's entry decodes, through the
        interface map, to the incoming interface and the set of outgoing ones; on any
        failure the kernel keeps the entries it had. */
    method AddMulticastRoute(src: IP, grp: IP, iif: int, oifs: seq<int>, vifAccepted: int -> bool, mfcAccepted: bool)
      returns (ok: bool)
      requires Valid()
      modifies this`vifMap, this`nextVif, this`installed
      ensures Valid() && Extends(old(vifMap), vifMap)
      ensures !(started && src.V4? && grp.V4?) ==> !ok && Allocation() == old(Allocation())
      ensures started && src.V4? && grp.V4? ==>
                var (a, registered) := RegisterAll(old(Allocation()), [iif] + oifs, vifAccepted);
                Allocation() == a && (ok <==> registered && mfcAccepted)
      ensures ok ==> (src.v4, grp.v4) in installed
                     && Decodes(vifMap, installed[(src.v4, grp.v4)], iif, set o | o in oifs)
      ensures ok ==> installed == old(installed)[(src.v4, grp.v4) := installed[(src.v4, grp.v4)]]
      ensures !ok ==> installed == old(installed)
    {
      hide Injective, RegisterAll, Try, Registers, TtlsFor, Decodes;
      if !started || !src.V4? || !grp.V4? {
        return false;
      }
      ghost var all := [iif] + oifs;
      ghost var start := Allocation();
      var parent := RegisterVif(iif, vifAccepted(iif));
      RegisterFirst(start, iif, vifAccepted);
      assert all[..1] == [iif];
      if parent.None? {
        FirstFailureDecides(start, all, vifAccepted, 1);
        return false;
      }
      var ttls := new uint8[32](_ => 0);
      NoTtls(vifMap, ttls[..]);
      for i := 0 to |oifs|
        invariant Valid() && Extends(old(vifMap), vifMap) && installed == old(installed)
        invariant RegisterAll(start, all[..i + 1], vifAccepted) == (Allocation(), true)
        invariant iif in vifMap && vifMap[iif] == parent.value
        invariant TtlsFor(vifMap, ttls[..], oifs[..i])
      {
        ghost var before := vifMap;
        var vif := RegisterVif(oifs[i], vifAccepted(oifs[i]));
        RegisterNext(start, all, vifAccepted, i + 1);
        if vif.None? {
          FirstFailureDecides(start, all, vifAccepted, i + 2);
          return false;
        }
        TtlsStep(before, vifMap, ttls[..], oifs[..i], oifs[i]);
        ttls[vif.value] := 1;
        assert oifs[..i + 1] == oifs[..i] + [oifs[i]];
      }
      assert oifs[..|oifs|] == oifs && all[..|oifs| + 1] == all;
      TtlsDecode(vifMap, parent.value, ttls[..], iif, oifs);
      if !mfcAccepted {
        return false;
      }
      installed := installed[(src.v4, grp.v4) := KernelMfc(parent.value, ttls[..])];
      ok := true;
    }

    /** Withdraws an entry. Nothing is asked of the kernel if the incoming interface was
        never registered. */
    method DeleteMulticastRoute(src: IP, grp: IP, iif: int, mfcAccepted: bool) returns (ok: bool)
      modifies this`installed
      ensures ok <==> started && src.V4? && grp.V4? && (iif !in vifMap || mfcAccepted)
      ensures installed == if ok && iif in vifMap then old(installed) - {(src.v4, grp.v4)} else old(installed)
    {
      if !started || !src.V4? || !grp.V4? {
        return false;
      }
      if iif !in vifMap {
        return true;
      }
      if !mfcAccepted {
        return false;
      }
      installed := installed - {(src.v4, grp.v4)};
      ok := true;
    }
  }

  // ---- The same, case by case ----

  /** One attempt: a known interface changes nothing; with all 32 numbers used up nothing
      happens; otherwise the next number is used up, and given to the interface if it is not
      negative and the kernel accepts it. */
  lemma TryExactly(a: Allocator, x: int, accepted: bool)
    ensures var b := Try(a, Attempt(x, accepted));
            if x in a.vifs || a.next >= 32 then b == a
            else b.next == a.next + 1 && b.vifs == if x >= 0 && accepted then a.vifs[x := a.next] else a.vifs
    ensures Registers(a.vifs, a.next, x, accepted) <==> x in a.vifs || (a.next < 32 && x >= 0 && accepted)
  {}

  /** A decoded entry has thirty-two TTLs, one at the outgoing interfaces' numbers and zero
      elsewhere; its parent is the incoming interface's number. */
  lemma EntryInNumbers(vifs: VifMap, next: nat, m: KernelMfc, iif: int, oifs: set<int>)
    requires Injective(vifs, next) && next <= 32 && Decodes(vifs, m, iif, oifs)
    ensures |m.ttls| == 32 && iif in vifs && m.parent == vifs[iif]
    ensures forall x :: x in vifs ==> vifs[x] < 32 && m.ttls[vifs[x]] == (if x in oifs then 1 else 0)
    ensures forall v :: 0 <= v < 32 && (forall x :: x in vifs ==> vifs[x] != v) ==> m.ttls[v] == 0
  {
    forall x | x in vifs
      ensures m.ttls[vifs[x]] == (if x in oifs then 1 else 0)
    {
      if m.ttls[vifs[x]] != 0 {
        var o :| o in oifs && o in vifs && vifs[o] == vifs[x];
      }
    }
  }

  /** In at most 32 attempts at distinct interfaces that the kernel accepts, each gets its
      own place in the sequence. */
  lemma {:induction false} AllAccepted(ts: seq<Attempt>, i: nat)
    requires |ts| <= 32 && i < |ts| && forall k :: 0 <= k < |ts| ==> ts[k].accepted && ts[k].ifindex >= 0
    requires forall k, l :: 0 <= k < l < |ts| ==> ts[k].ifindex != ts[l].ifindex
    ensures var a := TryAll(Allocator(map[], 0), ts);
            a.next == |ts| && ts[i].ifindex in a.vifs && a.vifs[ts[i].ifindex] == i
            && forall x :: x in a.vifs ==> exists k :: 0 <= k < |ts| && ts[k].ifindex == x
    decreases |ts|
  {
    var n := |ts| - 1;
    var front := ts[..n];
    if n > 0 {
      AllAccepted(front, if i < n then i else 0);
    } else {
      assert front == [];
    }
    var a := TryAll(Allocator(map[], 0), front);
    assert forall k :: 0 <= k < n ==> front[k].ifindex != ts[n].ifindex;
    assert ts[n].ifindex !in a.vifs;
    forall x | x in TryAll(Allocator(map[], 0), ts).vifs
      ensures exists k :: 0 <= k < |ts| && ts[k].ifindex == x
    {
      if x != ts[n].ifindex {
        var k :| 0 <= k < n && front[k].ifindex == x;
        assert ts[k].ifindex == x;
      }
    }
  }
}
