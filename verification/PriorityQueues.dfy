/** The binary heap of the SPF engine: Go's container/heap over the queue's own
    Less, Swap, Push and Pop. Entries are never updated in place, so a node may
    have several entries, of which all but the cheapest are stale. */
module PriorityQueues {
  import opened Common

  datatype Item = Item(node: IP, priority: nat)

  function Parent(i: nat): nat
    requires i > 0
  {
    (i - 1) / 2
  }

  /** Every entry but `hole` is no cheaper than its parent. */
  ghost predicate HeapExceptAt(q: seq<Item>, hole: int) {
    forall i :: 0 < i < |q| && i != hole ==> q[Parent(i)].priority <= q[i].priority
  }

  /** Every entry whose parent is not `hole` is no cheaper than its parent. */
  ghost predicate HeapExceptBelow(q: seq<Item>, hole: int) {
    forall i :: 0 < i < |q| && Parent(i) != hole ==> q[Parent(i)].priority <= q[i].priority
  }

  /** The children of `hole` are no cheaper than the parent of `hole`. */
  ghost predicate Grandparents(q: seq<Item>, hole: int) {
    forall i :: 0 < i < |q| && Parent(i) == hole && hole > 0 ==> q[Parent(hole)].priority <= q[i].priority
  }

  ghost predicate IsHeap(q: seq<Item>) {
    HeapExceptAt(q, -1)
  }

  function Swapped(q: seq<Item>, i: nat, j: nat): (r: seq<Item>)
    requires i < |q| && j < |q|
    ensures |r| == |q| && multiset(r) == multiset(q)
  {
    q[i := q[j]][j := q[i]]
  }

  /** Swapping an entry with its dearer parent moves the hole up to that parent. */
  lemma SiftUpStep(q: seq<Item>, j: nat)
    requires 0 < j < |q| && q[j].priority < q[Parent(j)].priority
    requires HeapExceptAt(q, j) && Grandparents(q, j)
    ensures HeapExceptAt(Swapped(q, Parent(j), j), Parent(j)) && Grandparents(Swapped(q, Parent(j), j), Parent(j))
  {
    var p := Parent(j);
    var r := Swapped(q, p, j);
    assert p > 0 ==> q[Parent(p)].priority <= q[p].priority;
    forall k | 0 < k < |r| && k != p
      ensures r[Parent(k)].priority <= r[k].priority
    {
      if k != j {
        assert q[Parent(k)].priority <= q[k].priority;
        assert Parent(k) == j ==> q[p].priority <= q[k].priority;
      }
    }
    forall k | 0 < k < |r| && Parent(k) == p && p > 0
      ensures r[Parent(p)].priority <= r[k].priority
    {
      assert k != j ==> q[p].priority <= q[k].priority;
    }
  }

  /** Swapping an entry with its cheaper child moves the hole down to that child. */
  lemma SiftDownStep(q: seq<Item>, i: nat, j: nat)
    requires j < |q| && (j == 2 * i + 1 || j == 2 * i + 2)
    requires HeapExceptBelow(q, i) && Grandparents(q, i)
    requires forall k :: 0 < k < |q| && Parent(k) == i ==> q[j].priority <= q[k].priority
    requires q[j].priority < q[i].priority
    ensures HeapExceptBelow(Swapped(q, i, j), j) && Grandparents(Swapped(q, i, j), j)
  {
    var r := Swapped(q, i, j);
    forall k | 0 < k < |r| && Parent(k) != j
      ensures r[Parent(k)].priority <= r[k].priority
    {
      if k == i {
        assert Parent(j) == i;
      } else if Parent(k) == i {
      } else {
        assert k != j && Parent(k) != i;
      }
    }
    forall k | 0 < k < |r| && Parent(k) == j
      ensures r[Parent(j)].priority <= r[k].priority
    {
      assert k != i && k != j && q[j].priority <= q[k].priority;
    }
  }

  lemma SiftDownDone(q: seq<Item>, i: nat)
    requires HeapExceptBelow(q, i)
    requires forall k :: 0 < k < |q| && (k == 2 * i + 1 || k == 2 * i + 2) ==> q[i].priority <= q[k].priority
    ensures IsHeap(q)
  {
    forall k | 0 < k < |q|
      ensures q[Parent(k)].priority <= q[k].priority
    {
      assert Parent(k) == i ==> k == 2 * i + 1 || k == 2 * i + 2;
    }
  }

  /** The child that a sift-down compares with: the right one only if strictly cheaper. */
  function CheaperChild(q: seq<Item>, i: nat): (j: nat)
    requires 2 * i + 1 < |q|
    ensures j < |q| && (j == 2 * i + 1 || j == 2 * i + 2)
    ensures forall k :: 0 < k < |q| && Parent(k) == i ==> q[j].priority <= q[k].priority
  {
    var l := 2 * i + 1;
    assert forall k :: 0 < k < |q| && Parent(k) == i ==> k == l || k == l + 1;
    if l + 1 < |q| && q[l + 1].priority < q[l].priority then l + 1 else l
  }

  lemma {:induction false} RootIsLeast(q: seq<Item>, i: nat)
    requires IsHeap(q) && i < |q|
    ensures q[0].priority <= q[i].priority
  {
    if i > 0 {
      RootIsLeast(q, Parent(i));
    }
  }

  class PriorityQueue {
    var items: seq<Item>

    ghost predicate Valid()
      reads this
    {
      IsHeap(items)
    }

    constructor ()
      ensures Valid() && items == []
    {
      items := [];
    }

    method Push(x: Item)
      requires Valid()
      modifies this
      ensures Valid()
      ensures multiset(items) == multiset(old(items)) + multiset{x}
      ensures |items| == |old(items)| + 1
    {
      items := items + [x];
      Up(|items| - 1);
    }

    method Up(j0: nat)
      requires j0 < |items|
      requires HeapExceptAt(items, j0) && Grandparents(items, j0)
      modifies this
      ensures Valid()
      ensures multiset(items) == multiset(old(items)) && |items| == |old(items)|
    {
      var j := j0;
      while j > 0 && items[j].priority < items[Parent(j)].priority
        invariant j < |items| == |old(items)|
        invariant HeapExceptAt(items, j) && Grandparents(items, j)
        invariant multiset(items) == multiset(old(items))
      {
        SiftUpStep(items, j);
        items := Swapped(items, Parent(j), j);
        j := Parent(j);
      }
    }

    method Pop() returns (x: Item)
      requires Valid() && items != []
      modifies this
      ensures Valid()
      ensures x in old(items) && multiset(old(items)) == multiset(items) + multiset{x}
      ensures |items| == |old(items)| - 1
      ensures forall y :: y in multiset(old(items)) ==> x.priority <= y.priority
    {
      ghost var before := items;
      forall y | y in multiset(before)
        ensures before[0].priority <= y.priority
      {
        var i :| 0 <= i < |before| && before[i] == y;
        RootIsLeast(before, i);
      }
      var n := |items| - 1;
      items := Swapped(items, 0, n);
      x := items[n];
      assert items == items[..n] + [x];
      items := items[..n];
      Down();
    }

    method Down()
      requires HeapExceptBelow(items, 0)
      modifies this
      ensures Valid()
      ensures multiset(items) == multiset(old(items)) && |items| == |old(items)|
    {
      var i := 0;
      while 2 * i + 1 < |items|
        invariant 0 <= i && |items| == |old(items)|
        invariant HeapExceptBelow(items, i) && Grandparents(items, i)
        invariant multiset(items) == multiset(old(items))
        decreases |items| - i
      {
        var j := CheaperChild(items, i);
        if items[j].priority >= items[i].priority {
          SiftDownDone(items, i);
          return;
        }
        SiftDownStep(items, i, j);
        items := Swapped(items, i, j);
        i := j;
      }
      SiftDownDone(items, i);
    }
  }
}
