/** The one-byte code for validity times: mantissa a in the high four bits, decimal
    exponent b in the low four, 0.06 * (1 + a/16) * 10^b seconds. */
module TimeCodes {
  import opened Common

  /** 0.06 s / 16, in nanoseconds. */
  const UNIT: nat := 3750000

  /** x * 10^b. */
  function Scaled(x: nat, b: nat): nat {
    if b == 0 then x else 10 * Scaled(x, b - 1)
  }

  function Mantissa(code: uint8): nat { code / 16 }

  function Exponent(code: uint8): nat { code % 16 }

  function Decode(code: uint8): Nanos {
    Scaled(UNIT * (16 + Mantissa(code)), Exponent(code))
  }

  function Distance(x: int, y: int): nat {
    if x < y then y - x else x - y
  }

  /** The first code, among those below n, that comes nearest to d. */
  function NearestBelow(d: Nanos, n: nat): uint8
    requires 1 <= n <= 256
  {
    if n == 1 then 0
    else
      var best := NearestBelow(d, n - 1);
      if Distance(Decode(n - 1), d) < Distance(Decode(best), d) then n - 1 else best
  }

  /** Every code, in the order in which the encoder tries them. */
  function Codes(): (codes: seq<uint8>)
    ensures |codes| == 256
  {
    seq(256, i requires 0 <= i < 256 => i)
  }

  function Encode(d: Nanos): uint8 {
    NearestBelow(d, |Codes()|)
  }

  method DecodeTimeVal(val: uint8) returns (d: Nanos)
    ensures d == Decode(val)
  {
    var a, b := val / 16, val % 16;
    d := TimeOf(a, b);
  }

  /** The loop by which both directions compute a code's time. */
  method TimeOf(a: nat, b: nat) returns (t: nat)
    requires a < 16 && b < 16
    ensures t == Decode(16 * a + b)
  {
    t := UNIT * (16 + a);
    for i := 0 to b
      invariant t == Scaled(UNIT * (16 + a), i)
    {
      t := t * 10;
    }
    assert Mantissa(16 * a + b) == a && Exponent(16 * a + b) == b;
  }

  /** The running best after the codes below n; a negative difference means none yet. */
  ghost predicate BestSoFar(d: Nanos, n: nat, best: uint8, minDiff: int) {
    && n <= 256
    && (n == 0 ==> minDiff == -1)
    && (n > 0 ==> best == NearestBelow(d, n) && minDiff == Distance(Decode(best), d))
  }

  method EncodeTimeVal(d: Nanos) returns (bestVal: uint8)
    ensures bestVal == Encode(d)
  {
    bestVal := 0;
    var minDiff: int := -1;
    for a := 0 to 16
      invariant BestSoFar(d, 16 * a, bestVal, minDiff)
    {
      bestVal, minDiff := ScanExponents(d, a, bestVal, minDiff);
    }
  }

  /** The inner loop: every exponent with the mantissa a. */
  method ScanExponents(d: Nanos, a: nat, best: uint8, diff0: int) returns (bestVal: uint8, minDiff: int)
    requires a < 16 && BestSoFar(d, 16 * a, best, diff0)
    ensures BestSoFar(d, 16 * (a + 1), bestVal, minDiff)
  {
    hide NearestBelow, Decode;
    bestVal, minDiff := best, diff0;
    for b := 0 to 16
      invariant BestSoFar(d, 16 * a + b, bestVal, minDiff)
    {
      var t := TimeOf(a, b);
      bestVal, minDiff := KeepNearer(d, 16 * a + b, t, bestVal, minDiff);
    }
  }

  /** The comparison made for each code. */
  method KeepNearer(d: Nanos, code: uint8, t: nat, best: uint8, diff0: int) returns (bestVal: uint8, minDiff: int)
    requires BestSoFar(d, code, best, diff0) && t == Decode(code)
    ensures BestSoFar(d, code + 1, bestVal, minDiff)
  {
    bestVal, minDiff := best, diff0;
    var diff := t - d;
    if diff < 0 {
      diff := -diff;
    }
    if minDiff < 0 || diff < minDiff {
      minDiff := diff;
      bestVal := code;
    }
  }

  /** The chosen code is a nearest one, and the first of the nearest. */
  lemma {:induction false} NearestIsNearest(d: Nanos, n: nat, c: uint8)
    requires 1 <= n <= 256 && c < n
    ensures NearestBelow(d, n) < n
    ensures Distance(Decode(NearestBelow(d, n)), d) <= Distance(Decode(c), d)
    ensures c < NearestBelow(d, n) ==> Distance(Decode(NearestBelow(d, n)), d) < Distance(Decode(c), d)
  {
    if n > 1 {
      NearestIsNearest(d, n - 1, if c < n - 1 then c else 0);
    }
  }

  /** No code is nearer to d than the one it is encoded as. */
  lemma EncodeNearest(d: Nanos, c: uint8)
    ensures Distance(Decode(Encode(d)), d) <= Distance(Decode(c), d)
    ensures c < Encode(d) ==> Distance(Decode(Encode(d)), d) < Distance(Decode(c), d)
  {
    NearestIsNearest(d, 256, c);
  }

  lemma {:induction false} ScaledMonotone(x: nat, y: nat, b: nat)
    requires x < y
    ensures Scaled(x, b) < Scaled(y, b)
  {
    if b > 0 {
      ScaledMonotone(x, y, b - 1);
    }
  }

  lemma {:induction false} ScaledTimes(k: nat, b: nat)
    ensures Scaled(UNIT * k, b) == k * Scaled(UNIT, b)
  {
    if b > 0 {
      ScaledTimes(k, b - 1);
      assert 10 * (k * Scaled(UNIT, b - 1)) == k * (10 * Scaled(UNIT, b - 1));
    }
  }

  /** The least mantissa with a greater exponent exceeds every mantissa with this one. */
  lemma {:induction false} NextDecade(x: nat, y: nat, m: nat, n: nat)
    requires x <= 31 * UNIT && y >= 16 * UNIT && m < n
    ensures Scaled(x, m) < Scaled(y, n)
  {
    if m > 0 {
      NextDecade(x, y, m - 1, n - 1);
    } else if n > 1 {
      NextDecade(x, y, 0, n - 1);
    }
  }

  /** Codes are ordered by exponent first and mantissa second. */
  predicate Before(c: uint8, d: uint8) {
    Exponent(c) < Exponent(d) || (Exponent(c) == Exponent(d) && Mantissa(c) < Mantissa(d))
  }

  lemma DecodeMonotone(c: uint8, d: uint8)
    requires Before(c, d)
    ensures Decode(c) < Decode(d)
  {
    var x, y := UNIT * (16 + Mantissa(c)), UNIT * (16 + Mantissa(d));
    if Exponent(c) < Exponent(d) {
      NextDecade(x, y, Exponent(c), Exponent(d));
    } else {
      ScaledMonotone(x, y, Exponent(c));
    }
  }

  /** A time that a code stands for is encoded as that code. */
  lemma EncodeDecode(c: uint8)
    ensures Encode(Decode(c)) == c
  {
    var e := Encode(Decode(c));
    EncodeNearest(Decode(c), c);
    if Before(e, c) {
      DecodeMonotone(e, c);
    } else if Before(c, e) {
      DecodeMonotone(c, e);
    }
    assert !Before(e, c) && !Before(c, e);
    assert e == 16 * Mantissa(e) + Exponent(e) && c == 16 * Mantissa(c) + Exponent(c);
  }

  /** The r-th code in increasing order of time. */
  function Ranked(r: nat): uint8
    requires r < 256
  {
    16 * (r % 16) + r / 16
  }

  lemma {:induction false} Bracket(d: Nanos, hi: nat) returns (r: nat)
    requires 0 < hi < 256 && Decode(Ranked(0)) <= d < Decode(Ranked(hi))
    ensures r < hi && Decode(Ranked(r)) <= d < Decode(Ranked(r + 1))
  {
    if Decode(Ranked(hi - 1)) <= d {
      r := hi - 1;
    } else {
      r := Bracket(d, hi - 1);
    }
  }

  /** Neighbouring codes are one unit apart within a decade, and go from 31 to 160
      units across two. */
  lemma NextRanked(r: nat) returns (u: nat)
    requires r + 1 < 256
    ensures u == Scaled(UNIT, r / 16)
    ensures r % 16 < 15 ==> Decode(Ranked(r)) >= 16 * u && Decode(Ranked(r + 1)) == Decode(Ranked(r)) + u
    ensures r % 16 == 15 ==> Decode(Ranked(r)) == 31 * u && Decode(Ranked(r + 1)) == 160 * u
  {
    hide Decode, Ranked, Mantissa, Exponent;
    var a, b := r % 16, r / 16;
    u := Scaled(UNIT, b);
    RankedParts(r);
    RankedParts(r + 1);
    if a < 15 {
      DecodeParts(Ranked(r), a, b);
      DecodeParts(Ranked(r + 1), a + 1, b);
      TimesSteps(a, u, Decode(Ranked(r)), Decode(Ranked(r + 1)));
    } else {
      DecodeParts(Ranked(r), 15, b);
      DecodeParts(Ranked(r + 1), 0, b + 1);
    }
  }

  lemma DecodeParts(c: uint8, a: nat, b: nat)
    requires Mantissa(c) == a && Exponent(c) == b
    ensures Decode(c) == (16 + a) * Scaled(UNIT, b)
  {
    ScaledTimes(16 + a, b);
  }

  lemma TimesSteps(a: nat, u: nat, x: int, y: int)
    requires x == (16 + a) * u && y == (16 + (a + 1)) * u
    ensures y == x + u && x >= 16 * u
  {}

  lemma RankedParts(r: nat)
    requires r < 256
    ensures Mantissa(Ranked(r)) == r % 16 && Exponent(Ranked(r)) == r / 16
  {}

  const LEAST: uint8 := 0
  const GREATEST: uint8 := 255

  /** Between the times of the least and the greatest code, encoding changes a time by
      at most 129/191 of it. */
  lemma EncodeError(d: Nanos)
    requires Decode(LEAST) <= d <= Decode(GREATEST)
    ensures 191 * Distance(Decode(Encode(d)), d) <= 129 * d
  {
    EncodeErrorUpTo(d, 255);
  }

  lemma EncodeErrorUpTo(d: Nanos, hi: nat)
    requires 0 < hi < 256 && Decode(Ranked(0)) <= d <= Decode(Ranked(hi))
    ensures 191 * Distance(Decode(Encode(d)), d) <= 129 * d
  {
    hide Decode, Encode;
    if d == Decode(Ranked(hi)) {
      EncodeDecode(Ranked(hi));
      DecodePositive(Ranked(hi));
    } else {
      var r := Bracket(d, hi);
      var u := NextRanked(r);
      EncodeNearest(d, Ranked(r));
      EncodeNearest(d, Ranked(r + 1));
      NearerOfTwo(Distance(Decode(Encode(d)), d), d, Decode(Ranked(r)), Decode(Ranked(r + 1)), u);
    }
  }

  lemma NearerOfTwo(err: nat, d: int, lo: int, hi: int, u: nat)
    requires lo <= d < hi && err <= d - lo && err <= hi - d
    requires (lo >= 16 * u && hi == lo + u) || (lo == 31 * u && hi == 160 * u)
    ensures 191 * err <= 129 * d
  {}

  lemma NothingBetween(c: uint8)
    ensures Decode(c) <= 31 * UNIT || Decode(c) >= 160 * UNIT
  {
    if Exponent(c) > 1 {
      NextDecade(16 * UNIT, UNIT * (16 + Mantissa(c)), 1, Exponent(c));
    } else if Exponent(c) == 1 {
      assert Scaled(UNIT * (16 + Mantissa(c)), 1) == 10 * Scaled(UNIT * (16 + Mantissa(c)), 0);
    }
  }

  /** The bound is attained halfway between 0.11625 s and 0.6 s. */
  lemma EncodeErrorAttained(d: Nanos)
    requires d == 358125000
    ensures 191 * Distance(Decode(Encode(d)), d) == 129 * d
  {
    var x := Decode(Encode(d));
    assert Mantissa(240) == 15 && Exponent(240) == 0;
    assert Decode(240) == 116250000;
    EncodeNearest(d, 240);
    assert Distance(x, d) <= 241875000;
    NothingBetween(Encode(d));
    assert Distance(x, d) >= 241875000;
  }

  // ---- Durations of 64 bits ----

  const MAX_DURATION: Nanos := 0x7FFF_FFFF_FFFF_FFFF
  const MIN_DURATION: Nanos := -0x8000_0000_0000_0000

  /** The time of a code fits a 64-bit duration exactly if the code is at most this. */
  predicate Fits(c: uint8) {
    Exponent(c) < 11 || (Exponent(c) == 11 && Mantissa(c) <= 8)
  }

  lemma Eleventh(u: nat)
    requires u == Scaled(UNIT, 11)
    ensures u == 375_000_000_000_000_000
  {}

  /** Decoded times on either side of the limit: nothing lies between 24 and 25 units of
      the eleventh decade. */
  lemma DecodeAround(c: uint8)
    ensures Fits(c) ==> Decode(c) <= 9_000_000_000_000_000_000
    ensures !Fits(c) ==> Decode(c) >= 9_375_000_000_000_000_000
    ensures !Fits(c) && c != 155 ==> Decode(c) > 9_375_000_000_000_000_000
    ensures c == 155 ==> Decode(c) == 9_375_000_000_000_000_000
    ensures c == 139 ==> Decode(c) == 9_000_000_000_000_000_000
  {
    hide Decode, Scaled;
    var a, b, u := Mantissa(c), Exponent(c), Scaled(UNIT, 11);
    Eleventh(u);
    DecodeParts(c, a, b);
    if b < 11 {
      DecodeParts(11, 0, 11);
      DecodeMonotone(c, 11);
    } else if b > 11 {
      DecodeParts(251, 15, 11);
      DecodeMonotone(251, c);
    } else {
      assert c == 16 * a + 11;
    }
  }

  lemma FitsIff(c: uint8)
    ensures Fits(c) <==> Decode(c) <= MAX_DURATION
  {
    DecodeAround(c);
  }

  /** What the conversion to a duration gives; what it gives for a time that does not fit
      depends on the hardware. */
  function Converted(c: uint8, overflowed: Nanos): Nanos {
    if Fits(c) then Decode(c) else overflowed
  }

  /** Where an overflow gives the most negative duration, decoding and encoding gives a
      code back exactly if it fits. */
  lemma WrappedRoundTripIff(c: uint8)
    ensures Encode(Converted(c, MIN_DURATION)) == c <==> Fits(c)
  {
    hide Decode, Encode;
    if Fits(c) {
      EncodeDecode(c);
    } else {
      NegativeIsLeast(MIN_DURATION, LEAST);
    }
  }

  lemma NegativeIsLeast(d: Nanos, least: uint8)
    requires d <= 0 && least == LEAST
    ensures Encode(d) == least
  {
    hide Decode, Encode;
    var e := Encode(d);
    EncodeNearest(d, least);
    if e != least {
      assert Before(least, e);
      DecodeMonotone(least, e);
      DecodePositive(least);
    }
  }

  lemma DecodePositive(c: uint8)
    ensures Decode(c) >= 0
  {}

  /** Where it gives the greatest duration, one more code comes back. */
  lemma SaturatedRoundTripIff(c: uint8)
    ensures Encode(Converted(c, MAX_DURATION)) == c <==> Fits(c) || c == 155
  {
    hide Decode, Encode;
    if Fits(c) {
      EncodeDecode(c);
    } else {
      var e := Encode(MAX_DURATION);
      EncodeNearest(MAX_DURATION, 155);
      DecodeAround(e);
      DecodeAround(155);
    }
  }

  /** So of all 64-bit durations, exactly those up to some 291 years get a code that fits. */
  lemma EncodeFitsIff(d: Nanos)
    requires MIN_DURATION <= d <= MAX_DURATION
    ensures Fits(Encode(d)) <==> d <= 9_187_500_000_000_000_000
  {
    hide Decode, Encode;
    var e := Encode(d);
    EncodeNearest(d, 139);
    EncodeNearest(d, 155);
    DecodeAround(e);
    DecodeAround(139);
    DecodeAround(155);
  }
}
