/** The duplicate table: what it answers over whole runs of queries and ageing. */
module Duplicates {
  import opened Common
  import opened Expiry

  /** Originator, then message sequence number, then the time the entry expires. */
  type Dups = map<IP, map<uint16, Nanos>>

  predicate Live(d: Dups, o: IP, s: uint16, now: Nanos) {
    o in d && s in d[o] && now < d[o][s]
  }

  function Record(d: Dups, o: IP, s: uint16, exp: Nanos): Dups {
    d[o := (if o in d then d[o] else map[])[s := exp]]
  }

  /** The table after a query: a duplicate leaves it alone, anything else is recorded. */
  function AfterQuery(d: Dups, o: IP, s: uint16, vtime: Nanos, now: Nanos): Dups {
    if Live(d, o, s, now) then d else Record(d, o, s, now + vtime)
  }

  function AfterAging(d: Dups, now: Nanos): Dups {
    map o | o in d && Unexpired(d[o], now) != map[] :: Unexpired(d[o], now)
  }

  lemma AgedEntry(d: Dups, now: Nanos, o: IP, s: uint16)
    ensures o in d && s in d[o] && now <= d[o][s] <==>
              o in AfterAging(d, now) && s in AfterAging(d, now)[o]
    ensures o in AfterAging(d, now) && s in AfterAging(d, now)[o] ==> AfterAging(d, now)[o][s] == d[o][s]
  {
    if o in d && s in d[o] && now <= d[o][s] {
      assert s in Unexpired(d[o], now);
    }
  }

  /** A message taken for new at one time is a duplicate later exactly while its validity
      lasts; with a validity that is not positive it is forgotten at once. */
  lemma RememberedIff(d: Dups, o: IP, s: uint16, vtime: Nanos, now: Nanos, later: Nanos)
    requires !Live(d, o, s, now)
    ensures Live(AfterQuery(d, o, s, vtime, now), o, s, later) <==> later < now + vtime
  {}

  /** The code's own operations, each at its time. */
  datatype Op =
    | Query(originator: IP, seqNum: uint16, vtime: Nanos, at: Nanos)
    | Age(at: Nanos)

  function Step(d: Dups, op: Op): Dups {
    match op
    case Query(o, s, vtime, at) => AfterQuery(d, o, s, vtime, at)
    case Age(at) => AfterAging(d, at)
  }

  function After(d: Dups, ops: seq<Op>): Dups {
    if ops == [] then d else Step(After(d, ops[..|ops| - 1]), ops[|ops| - 1])
  }

  /** The answers to the queries of a run, in order. */
  function Answers(d: Dups, ops: seq<Op>): seq<bool> {
    if ops == [] then []
    else
      var n := |ops| - 1;
      match ops[n]
      case Query(o, s, _, at) => Answers(d, ops[..n]) + [Live(After(d, ops[..n]), o, s, at)]
      case Age(_) => Answers(d, ops[..n])
  }

  function WithoutAging(ops: seq<Op>): seq<Op> {
    if ops == [] then []
    else
      var n := |ops| - 1;
      if ops[n].Age? then WithoutAging(ops[..n]) else WithoutAging(ops[..n]) + [ops[n]]
  }

  ghost predicate Monotone(ops: seq<Op>) {
    forall i, j :: 0 <= i <= j < |ops| ==> ops[i].at <= ops[j].at
  }

  /** No later query can tell the two tables apart. */
  ghost predicate Alike(d: Dups, e: Dups, now: Nanos) {
    forall o, s, t :: now <= t ==> (Live(d, o, s, t) <==> Live(e, o, s, t))
  }

  lemma AgingAlike(d: Dups, e: Dups, now: Nanos)
    requires Alike(d, e, now)
    ensures Alike(AfterAging(d, now), e, now)
  {
    forall o, s, t | now <= t
      ensures Live(AfterAging(d, now), o, s, t) <==> Live(e, o, s, t)
    {
      AgedEntry(d, now, o, s);
      assert Live(d, o, s, t) <==> Live(e, o, s, t);
    }
  }

  lemma QueryAlike(d: Dups, e: Dups, o: IP, s: uint16, vtime: Nanos, now: Nanos)
    requires Alike(d, e, now)
    ensures Live(d, o, s, now) <==> Live(e, o, s, now)
    ensures Alike(AfterQuery(d, o, s, vtime, now), AfterQuery(e, o, s, vtime, now), now)
  {
    assert Live(d, o, s, now) <==> Live(e, o, s, now);
    forall p, q, t | now <= t
      ensures Live(AfterQuery(d, o, s, vtime, now), p, q, t) <==> Live(AfterQuery(e, o, s, vtime, now), p, q, t)
    {
      assert Live(d, p, q, t) <==> Live(e, p, q, t);
    }
  }

  lemma LaterAlike(d: Dups, e: Dups, now: Nanos, later: Nanos)
    requires Alike(d, e, now) && now <= later
    ensures Alike(d, e, later)
  {}

  function LastTime(ops: seq<Op>): Nanos
    requires ops != []
  {
    ops[|ops| - 1].at
  }

  lemma {:induction false} AgingTransparentUpTo(d: Dups, ops: seq<Op>)
    requires Monotone(ops)
    ensures Answers(d, ops) == Answers(d, WithoutAging(ops))
    ensures ops != [] ==> Alike(After(d, ops), After(d, WithoutAging(ops)), LastTime(ops))
  {
    if ops != [] {
      var n := |ops| - 1;
      var before := ops[..n];
      assert Monotone(before);
      AgingTransparentUpTo(d, before);
      var x, y := After(d, before), After(d, WithoutAging(before));
      if n > 0 {
        LaterAlike(x, y, LastTime(before), ops[n].at);
      }
      match ops[n] {
        case Query(o, s, vtime, at) =>
          QueryAlike(x, y, o, s, vtime, at);
          assert (WithoutAging(before) + [ops[n]])[..|WithoutAging(before)|] == WithoutAging(before);
        case Age(at) =>
          AgingAlike(x, y, at);
      }
    }
  }

  /** Ageing is invisible: leaving out every ageing pass, wherever they were, changes
      no answer. */
  lemma AgingTransparent(d: Dups, ops: seq<Op>)
    requires Monotone(ops)
    ensures Answers(d, ops) == Answers(d, WithoutAging(ops))
  {
    AgingTransparentUpTo(d, ops);
  }

  /** The answer to the i-th operation, a query. */
  ghost predicate AnsweredNew(d: Dups, ops: seq<Op>, i: nat)
    requires i < |ops| && ops[i].Query?
  {
    !Live(After(d, ops[..i]), ops[i].originator, ops[i].seqNum, ops[i].at)
  }

  /** The key is recorded at least until e. */
  ghost predicate HeldUntil(d: Dups, o: IP, s: uint16, e: Nanos) {
    o in d && s in d[o] && e <= d[o][s]
  }

  lemma StepHolds(d: Dups, op: Op, o: IP, s: uint16, e: Nanos)
    requires HeldUntil(d, o, s, e) && op.at < e
    ensures HeldUntil(Step(d, op), o, s, e)
  {
    if op.Age? {
      AgedEntry(d, op.at, o, s);
    }
  }

  lemma {:induction false} RunHolds(d: Dups, ops: seq<Op>, i: nat, j: nat, o: IP, s: uint16, e: Nanos)
    requires i <= j <= |ops| && HeldUntil(After(d, ops[..i]), o, s, e)
    requires forall k :: i <= k < j ==> ops[k].at < e
    ensures HeldUntil(After(d, ops[..j]), o, s, e)
    decreases j
  {
    if i < j {
      RunHolds(d, ops, i, j - 1, o, s, e);
      assert ops[..j][..j - 1] == ops[..j - 1];
      StepHolds(After(d, ops[..j - 1]), ops[j - 1], o, s, e);
    }
  }

  /** Two queries about one message that are both answered "new" lie at least the
      validity recorded by the first apart. */
  lemma NewAnswersApart(d: Dups, ops: seq<Op>, i: nat, j: nat)
    requires Monotone(ops) && i < j < |ops| && ops[i].Query? && ops[j].Query?
    requires ops[i].originator == ops[j].originator && ops[i].seqNum == ops[j].seqNum
    requires AnsweredNew(d, ops, i) && AnsweredNew(d, ops, j)
    ensures ops[j].at >= ops[i].at + ops[i].vtime
  {
    var o, s, e := ops[i].originator, ops[i].seqNum, ops[i].at + ops[i].vtime;
    if ops[j].at < e {
      assert ops[..i + 1][..i] == ops[..i];
      assert HeldUntil(After(d, ops[..i + 1]), o, s, e);
      RunHolds(d, ops, i + 1, j, o, s, e);
      assert false;
    }
  }
}
