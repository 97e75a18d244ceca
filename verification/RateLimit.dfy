/** The per-client token bucket of the API server, over exact reals. */
module RateLimit {

  datatype Bucket = Bucket(tokens: real, lastUpdate: real)

  datatype Limits = Limits(rate: real, burst: nat)

  predicate Sane(l: Limits) {
    l.rate >= 0.0
  }

  function Min(a: real, b: real): real {
    if a < b then a else b
  }

  /** Tokens at hand when a request arrives: a full bucket for a new client. */
  function Refilled(l: Limits, known: bool, b: Bucket, now: real): real {
    if known then Min(l.burst as real, b.tokens + (now - b.lastUpdate) * l.rate) else l.burst as real
  }

  class APIServer {
    const limits: Limits
    var buckets: map<string, Bucket>

    constructor (limits: Limits)
      ensures this.limits == limits && buckets == map[]
    {
      this.limits, buckets := limits, map[];
    }

    /** One request. It is let through if a whole token is at hand, which it then uses
        up; other clients' buckets are left alone. */
    method RateLimit(client: string, now: real) returns (admitted: bool)
      requires Sane(limits)
      modifies this`buckets
      ensures var tokens := Refilled(limits, client in old(buckets), if client in old(buckets) then old(buckets)[client] else Bucket(0.0, 0.0), now);
              && (admitted <==> tokens >= 1.0)
              && buckets == old(buckets)[client := Bucket(if admitted then tokens - 1.0 else tokens, now)]
    {
      var b := if client in buckets then buckets[client] else Bucket(limits.burst as real, now);
      var elapsed := now - b.lastUpdate;
      var tokens := b.tokens + elapsed * limits.rate;
      if tokens > limits.burst as real {
        tokens := limits.burst as real;
      }
      if tokens < 1.0 {
        buckets := buckets[client := Bucket(tokens, now)];
        return false;
      }
      buckets := buckets[client := Bucket(tokens - 1.0, now)];
      admitted := true;
    }
  }

  // ---- One client's requests ----

  ghost predicate Monotone(times: seq<real>) {
    forall i, j :: 0 <= i <= j < |times| ==> times[i] <= times[j]
  }

  /** The bucket after the first n requests. */
  function BucketAfter(l: Limits, times: seq<real>, n: nat): Bucket
    requires 1 <= n <= |times|
    decreases n, 0
  {
    var tokens := Before(l, times, n - 1);
    Bucket(if tokens >= 1.0 then tokens - 1.0 else tokens, times[n - 1])
  }

  /** The tokens at hand for the n-th request, counting from zero. */
  function Before(l: Limits, times: seq<real>, n: nat): real
    requires n < |times|
    decreases n, 1
  {
    if n == 0 then Refilled(l, false, Bucket(0.0, 0.0), times[0])
    else Refilled(l, true, BucketAfter(l, times, n), times[n])
  }

  predicate Admitted(l: Limits, times: seq<real>, n: nat)
    requires n < |times|
  {
    Before(l, times, n) >= 1.0
  }

  /** The recurrence looks only backwards. */
  lemma {:induction false} BeforePrefix(l: Limits, times: seq<real>, more: seq<real>, n: nat)
    requires n < |times|
    ensures Before(l, times + more, n) == Before(l, times, n)
  {
    if n > 0 {
      BeforePrefix(l, times, more, n - 1);
    }
  }

  /** The method continues the recurrence: with the bucket left by some requests, it
      decides the next one as the recurrence does and leaves its bucket. */
  lemma NextRequest(l: Limits, times: seq<real>, now: real)
    ensures var all := times + [now];
            var known := times != [];
            var b := if known then BucketAfter(l, times, |times|) else Bucket(0.0, 0.0);
            var tokens := Refilled(l, known, b, now);
            && (Admitted(l, all, |times|) <==> tokens >= 1.0)
            && BucketAfter(l, all, |all|) == Bucket(if tokens >= 1.0 then tokens - 1.0 else tokens, now)
  {
    var all, n := times + [now], |times|;
    if n > 0 {
      BeforePrefix(l, times, [now], n - 1);
      assert BucketAfter(l, all, n) == BucketAfter(l, times, n);
      assert Before(l, all, n) == Refilled(l, true, BucketAfter(l, all, n), all[n]);
    } else {
      assert Before(l, all, 0) == Refilled(l, false, Bucket(0.0, 0.0), all[0]);
    }
    assert BucketAfter(l, all, n + 1) == Bucket(if Before(l, all, n) >= 1.0 then Before(l, all, n) - 1.0 else Before(l, all, n), all[n]);
  }

  /** How many of the requests i, ..., j - 1 are admitted. */
  function Count(l: Limits, times: seq<real>, i: nat, j: nat): nat
    requires i <= j <= |times|
  {
    if i == j then 0 else Count(l, times, i, j - 1) + (if Admitted(l, times, j - 1) then 1 else 0)
  }

  /** What may be admitted between the i-th and the j-th request. */
  function Allowance(l: Limits, times: seq<real>, i: nat, j: nat): real
    requires i <= j < |times|
  {
    (l.burst as real) + l.rate * (times[j] - times[i])
  }

  /** The tokens at hand, from those at hand for the request before. */
  lemma BeforeStep(l: Limits, times: seq<real>, j: nat)
    requires 0 < j < |times|
    ensures var carried := Before(l, times, j - 1) - (if Admitted(l, times, j - 1) then 1.0 else 0.0);
            Before(l, times, j) == Min(l.burst as real, carried + (times[j] - times[j - 1]) * l.rate)
  {}

  lemma {:induction false} TokensBounded(l: Limits, times: seq<real>, n: nat)
    requires Sane(l) && Monotone(times) && n < |times|
    ensures 0.0 <= Before(l, times, n) <= l.burst as real
  {
    hide Before, BucketAfter, Admitted;
    assert l.burst as real >= 0.0;
    if n == 0 {
      BeforeFirst(l, times);
    } else {
      TokensBounded(l, times, n - 1);
      BeforeStep(l, times, n);
      Product(times[n] - times[n - 1], l.rate);
      AdmittedMeans(l, times, n - 1);
      var carried := Before(l, times, n - 1) - (if Admitted(l, times, n - 1) then 1.0 else 0.0);
      MinBounds(l.burst, carried, (times[n] - times[n - 1]) * l.rate);
    }
  }

  lemma MinBounds(burst: nat, x: real, y: real)
    requires x >= 0.0 && y >= 0.0
    ensures 0.0 <= Min(burst as real, x + y) <= burst as real
  {}

  lemma BeforeFirst(l: Limits, times: seq<real>)
    requires times != []
    ensures Before(l, times, 0) == l.burst as real
  {}

  lemma AdmittedMeans(l: Limits, times: seq<real>, n: nat)
    requires n < |times|
    ensures Admitted(l, times, n) <==> Before(l, times, n) >= 1.0
  {}

  lemma Product(a: real, b: real)
    requires a >= 0.0 && b >= 0.0
    ensures a * b >= 0.0
  {}

  lemma AllowanceStep(l: Limits, times: seq<real>, i: nat, j: nat)
    requires i < j < |times|
    ensures Allowance(l, times, i, j) == Allowance(l, times, i, j - 1) + (times[j] - times[j - 1]) * l.rate
  {
    var a, b, c := times[i], times[j - 1], times[j];
    assert l.rate * (c - a) == l.rate * (b - a) + l.rate * (c - b);
  }

  lemma AllowanceNow(l: Limits, times: seq<real>, i: nat)
    requires i < |times|
    ensures Allowance(l, times, i, i) == l.burst as real
  {
    assert l.rate * 0.0 == 0.0;
  }


  /** Tokens are never more than what every window ending now leaves over. */
  lemma {:induction false} WindowBounds(l: Limits, times: seq<real>, i: nat, j: nat)
    requires Sane(l) && Monotone(times) && i <= j < |times|
    ensures Before(l, times, j) <= Allowance(l, times, i, j) - (Count(l, times, i, j) as real)
    decreases j
  {
    hide Allowance, Before, Admitted, BucketAfter;
    if i == j {
      TokensBounded(l, times, i);
      AllowanceNow(l, times, i);
    } else {
      WindowBounds(l, times, i, j - 1);
      AllowanceStep(l, times, i, j);
      BeforeStep(l, times, j);
    }
  }

  /** And they are exactly what some window leaves over: the one since the bucket was
      last full. */
  lemma {:induction false} TightWindow(l: Limits, times: seq<real>, j: nat) returns (i: nat)
    requires Sane(l) && Monotone(times) && j < |times|
    ensures i <= j && Before(l, times, j) == Allowance(l, times, i, j) - (Count(l, times, i, j) as real)
  {
    hide Allowance, Admitted, BucketAfter;
    if j == 0 || Before(l, times, j) == l.burst as real {
      i := j;
      AllowanceNow(l, times, i);
    } else {
      i := TightWindow(l, times, j - 1);
      AllowanceStep(l, times, i, j);
      BeforeStep(l, times, j);
    }
  }

  /** In any window of requests no more are admitted than the burst and the rate allow. */
  lemma AdmittedAtMost(l: Limits, times: seq<real>, i: nat, j: nat)
    requires Sane(l) && Monotone(times) && i <= j < |times|
    ensures (Count(l, times, i, j + 1) as real) <= Allowance(l, times, i, j)
  {
    WindowBounds(l, times, i, j);
    TokensBounded(l, times, j);
  }

  /** A request is admitted exactly if admitting it keeps every window that ends with it
      within that bound: nothing is refused that could have been let through. */
  lemma AdmittedExactly(l: Limits, times: seq<real>, n: nat)
    requires Sane(l) && Monotone(times) && n < |times|
    ensures Admitted(l, times, n) <==>
              forall i :: 0 <= i <= n ==> (Count(l, times, i, n) as real) + 1.0 <= Allowance(l, times, i, n)
  {
    forall i | 0 <= i <= n
      ensures Before(l, times, n) <= Allowance(l, times, i, n) - (Count(l, times, i, n) as real)
    {
      WindowBounds(l, times, i, n);
    }
    var k := TightWindow(l, times, n);
  }
}
