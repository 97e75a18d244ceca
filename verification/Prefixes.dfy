/** Network prefixes, as the text form that the route tables use for keys and as
    net.ParseCIDR and IPNet.Contains read that text. */
module Prefixes {
  import opened Common

  /** The text "addr/len", or "addr/mask" for a mask that is not a run of ones. */
  datatype Prefix = Cidr(addr: IP, len: nat) | OddMask(addr: IP, mask: uint32)

  function HostPrefix(node: IP): Prefix {
    Cidr(node, 32)
  }

  function Width(a: IP): nat {
    if a.V4? then 32 else 128
  }

  function Value(a: IP): nat {
    if a.V4? then a.v4 else a.v6
  }

  function Pow2(n: nat): (r: nat)
    ensures r > 0
  {
    if n == 0 then 1 else 2 * Pow2(n - 1)
  }

  /** net.ParseCIDR accepts the text. */
  predicate Parses(p: Prefix) {
    p.Cidr? && p.len <= Width(p.addr)
  }

  predicate Contains(p: Prefix, dest: IP)
    requires Parses(p)
  {
    && p.addr.V4? == dest.V4?
    && Value(p.addr) / Pow2(Width(dest) - p.len) == Value(dest) / Pow2(Width(dest) - p.len)
  }

  /** No address bit below the prefix length is set. */
  predicate Masked(p: Prefix) {
    Parses(p) ==> Value(p.addr) % Pow2(Width(p.addr) - p.len) == 0
  }

  predicate Matches(p: Prefix, dest: IP) {
    Parses(p) && Contains(p, dest)
  }

  /** Masked prefixes of one length never overlap. */
  lemma MaskedUnique(p: Prefix, q: Prefix, dest: IP)
    requires Masked(p) && Masked(q) && Matches(p, dest) && Matches(q, dest) && p.len == q.len
    ensures p == q
  {
    hide Pow2;
    SameMultiple(Value(p.addr), Value(q.addr), Pow2(Width(dest) - p.len));
  }

  lemma SameMultiple(a: nat, b: nat, m: nat)
    requires m > 0 && a % m == 0 && b % m == 0 && a / m == b / m
    ensures a == b
  {
    assert a == m * (a / m) && b == m * (b / m);
  }

  /** A /32 prefix contains an IPv4 address only if it is that address's own. */
  lemma HostPrefixUnique(p: Prefix, dest: IP)
    requires dest.V4? && Matches(p, dest) && p.len == 32
    ensures p == HostPrefix(dest)
  {
    assert Pow2(0) == 1;
  }

  // ---- Prefixes as ranges ----

  lemma Pow2Next(n: nat)
    requires n > 0
    ensures Pow2(n) == 2 * Pow2(n - 1)
  {}

  lemma Pow2Zero()
    ensures Pow2(0) == 1
  {}

  lemma DoubleProduct(x: nat, y: nat)
    ensures (2 * x) * y == 2 * (x * y)
  {}

  lemma {:induction false} Pow2Sum(a: nat, b: nat)
    ensures Pow2(a + b) == Pow2(a) * Pow2(b)
  {
    hide Pow2;
    if a == 0 {
      Pow2Zero();
    } else {
      Pow2Sum(a - 1, b);
      Pow2Next(a);
      Pow2Next(a + b);
      DoubleProduct(Pow2(a - 1), Pow2(b));
    }
  }

  lemma Pow2Small()
    ensures Pow2(0) == 1 && Pow2(1) == 2 && Pow2(4) == 16
  {}

  lemma Pow2Literals()
    ensures Pow2(0) == 1 && Pow2(1) == 2 && Pow2(8) == 256 && Pow2(16) == 0x1_0000
    ensures Pow2(24) == 0x100_0000 && Pow2(28) == 0x1000_0000 && Pow2(32) == 0x1_0000_0000
  {
    hide Pow2;
    Pow2Small();
    Pow2Sum(4, 4);
    Pow2Sum(8, 8);
    Pow2Sum(16, 8);
    Pow2Sum(24, 4);
    Pow2Sum(16, 16);
  }

  lemma SameBlock(a: nat, d: nat, m: nat)
    requires m > 0 && a % m == 0
    ensures a / m == d / m <==> a <= d < a + m
  {
    assert a == m * (a / m);
    assert d == m * (d / m) + d % m;
    if d / m > a / m {
      assert m * (d / m) >= m * (a / m + 1) == a + m;
    } else if d / m < a / m {
      assert m * (d / m + 1) <= m * (a / m);
    }
  }

  /** A masked prefix contains exactly the addresses of its family in a range that starts
      at its own and has a power of two of them. */
  lemma ContainsExactly(a: IP, n: nat, dest: IP)
    requires n <= Width(a) && Value(a) % Pow2(Width(a) - n) == 0
    ensures Matches(Cidr(a, n), dest) <==>
              a.V4? == dest.V4? && Value(a) <= Value(dest) < Value(a) + Pow2(Width(a) - n)
  {
    hide Pow2;
    if a.V4? == dest.V4? {
      SameBlock(Value(a), Value(dest), Pow2(Width(a) - n));
    }
  }

  /** For IPv4, in numbers. */
  lemma ContainsV4(a: uint32, n: nat, d: uint32)
    requires n <= 32 && a % Pow2(32 - n) == 0
    ensures Matches(Cidr(V4(a), n), V4(d)) <==> a <= d < a + Pow2(32 - n)
  {
    hide Pow2;
    ContainsExactly(V4(a), n, V4(d));
  }

  /** 192.168.100.0/24 contains 192.168.100.50 and not 192.168.101.50, 0.0.0.0/0 contains
      every IPv4 address and no other, and 224.0.0.0/4 those from 224.0.0.0 up to
      239.255.255.255. */
  lemma KnownPrefixes(d: IP)
    ensures Matches(Cidr(V4(0xC0A8_6400), 24), V4(0xC0A8_6432)) && !Matches(Cidr(V4(0xC0A8_6400), 24), V4(0xC0A8_6532))
    ensures Matches(Cidr(V4(0), 0), d) <==> d.V4?
    ensures Matches(Cidr(V4(0xE000_0000), 4), d) <==> d.V4? && 0xE000_0000 <= d.v4 <= 0xEFFF_FFFF
  {
    hide Pow2, Matches;
    Pow2Literals();
    ContainsExactly(V4(0xC0A8_6400), 24, V4(0xC0A8_6432));
    ContainsExactly(V4(0xC0A8_6400), 24, V4(0xC0A8_6532));
    ContainsExactly(V4(0), 0, d);
    ContainsExactly(V4(0xE000_0000), 4, d);
  }

  /** Text that net.ParseCIDR refuses matches nothing. */
  lemma OddMatchesNothing(p: Prefix, dest: IP)
    requires p.OddMask? || p.len > 128 || (p.addr.V4? && p.len > 32)
    ensures !Matches(p, dest)
  {}
}
