/** The two ways of enforcing that multicast packets come from the parent only: a list
    of netfilter rules, and a verdict computed for each packet that a rule queues. */
module LoopPrevention {
  import opened Common
  import P = Prefixes
  import Wire

  type Flow = (IP, IP)

  /** The expected sender's hardware address of each flow, as text. */
  type Routes = map<Flow, string>

  datatype Verdict = Accept | Drop

  /** A received packet, with its sender's hardware address if it has one. */
  datatype Packet = Packet(iface: string, source: IP, group: IP, hwAddr: Option<seq<uint8>>)

  // ---- Hardware addresses as text ----

  function Digit(n: nat): char
    requires n < 16
  {
    "0123456789abcdef"[n]
  }

  function DigitValue(c: char): Option<nat> {
    if '0' <= c <= '9' then Some(c as int - '0' as int)
    else if 'a' <= c <= 'f' then Some(c as int - 'a' as int + 10)
    else if 'A' <= c <= 'F' then Some(c as int - 'A' as int + 10)
    else None
  }

  function Hex(b: uint8): (s: string)
    ensures |s| == 2
  {
    [Digit(b / 16), Digit(b % 16)]
  }

  /** Two lower-case digits per byte, colons in between. */
  function FormatMAC(mac: seq<uint8>): string {
    if |mac| == 0 then ""
    else if |mac| == 1 then Hex(mac[0])
    else FormatMAC(mac[..|mac| - 1]) + ":" + Hex(mac[|mac| - 1])
  }

  function ParseByte(s: string): Option<uint8>
    requires |s| == 2
  {
    match (DigitValue(s[0]), DigitValue(s[1]))
    case (Some(h), Some(l)) => if h < 16 && l < 16 then Some(16 * h + l) else None
    case _ => None
  }

  /** How netfilter reads a hardware address, in either case. */
  function ParseMAC(s: string): Option<seq<uint8>> {
    if |s| < 2 then None
    else if |s| == 2 then match ParseByte(s) case None => None case Some(b) => Some([b])
    else if |s| < 5 || s[|s| - 3] != ':' then None
    else match (ParseMAC(s[..|s| - 3]), ParseByte(s[|s| - 2..]))
      case (Some(front), Some(b)) => Some(front + [b])
      case _ => None
  }

  method FormatMACAddress(mac: seq<uint8>) returns (s: string)
    ensures s == FormatMAC(mac)
  {
    if |mac| == 0 {
      return "";
    }
    s := Hex(mac[0]);
    assert mac[..1] == [mac[0]];
    for i := 1 to |mac|
      invariant s == FormatMAC(mac[..i])
    {
      assert mac[..i + 1][..i] == mac[..i];
      s := s + ":" + Hex(mac[i]);
    }
    assert mac[..|mac|] == mac;
  }

  lemma ParseHex(b: uint8)
    ensures ParseByte(Hex(b)) == Some(b)
  {
    DigitRoundTrip(b / 16);
    DigitRoundTrip(b % 16);
  }

  lemma DigitRoundTrip(n: nat)
    requires n < 16
    ensures DigitValue(Digit(n)) == Some(n)
  {
    if n < 10 {
      assert Digit(n) == "0123456789"[n];
    } else {
      assert Digit(n) == "abcdef"[n - 10];
    }
  }

  /** Reading a formatted address gives it back, so no two addresses look alike. */
  lemma {:induction false} ParseFormat(mac: seq<uint8>)
    requires mac != []
    ensures |FormatMAC(mac)| >= 2 && ParseMAC(FormatMAC(mac)) == Some(mac)
  {
    hide Hex, ParseByte, ParseMAC;
    var n := |mac| - 1;
    ParseHex(mac[n]);
    if n > 0 {
      ParseFormat(mac[..n]);
      ParseJoined(FormatMAC(mac[..n]), Hex(mac[n]), mac[..n], mac[n]);
      assert mac == mac[..n] + [mac[n]];
    } else {
      ParseOne(mac[0]);
      assert mac == [mac[0]];
    }
  }

  lemma ParseOne(b: uint8)
    ensures ParseMAC(Hex(b)) == Some([b])
  {
    hide Hex, ParseByte;
    ParseHex(b);
  }

  lemma Joined(a: string, b: string)
    requires |b| == 2
    ensures var s := a + ":" + b;
            |s| == |a| + 3 && s[..|s| - 3] == a && s[|s| - 3] == ':' && s[|s| - 2..] == b
  {}

  lemma ParseJoined(a: string, b: string, front: seq<uint8>, x: uint8)
    requires |a| >= 2 && ParseMAC(a) == Some(front) && |b| == 2 && ParseByte(b) == Some(x)
    ensures ParseMAC(a + ":" + b) == Some(front + [x])
  {
    hide ParseByte;
    Joined(a, b);
  }

  // ---- The rule list ----

  datatype Rule = Rule(iface: string, source: IP, group: IP, mac: Option<string>, verdict: Verdict)

  predicate Matches(r: Rule, p: Packet) {
    && r.iface == p.iface && r.source == p.source && r.group == p.group
    && (r.mac.Some? ==> Sent(r.mac.value, p))
  }

  /** The packet's sender has the address that the text stands for. */
  predicate Sent(mac: string, p: Packet) {
    ParseMAC(mac).Some? && p.hwAddr == ParseMAC(mac)
  }

  ghost predicate SomeMatches(rules: seq<Rule>, p: Packet) {
    exists i :: 0 <= i < |rules| && Matches(rules[i], p)
  }

  /** The chain's verdict: the first rule that matches, or acceptance. */
  function FirstMatch(rules: seq<Rule>, p: Packet): Verdict {
    if rules == [] then Accept
    else if Matches(rules[0], p) then rules[0].verdict
    else FirstMatch(rules[1..], p)
  }

  /** For one flow and interface: accept the expected sender, drop all others. */
  function Pair(f: Flow, mac: string, iface: string): seq<Rule> {
    [Rule(iface, f.0, f.1, Some(mac), Accept), Rule(iface, f.0, f.1, None, Drop)]
  }

  function RulesOfFlow(f: Flow, mac: string, ifaces: seq<string>): seq<Rule> {
    if ifaces == [] then [] else RulesOfFlow(f, mac, ifaces[..|ifaces| - 1]) + Pair(f, mac, ifaces[|ifaces| - 1])
  }

  /** The addresses are such as an IPv4 rule can name. */
  predicate IsV4(f: Flow) {
    f.0.V4? && f.1.V4?
  }

  /** Flows of other addresses get no rules: their key does not split in two. */
  function RulesForKey(f: Flow, mac: string, ifaces: seq<string>): seq<Rule> {
    if IsV4(f) then RulesOfFlow(f, mac, ifaces) else []
  }

  function RulesInOrder(routes: Routes, order: seq<Flow>, ifaces: seq<string>): seq<Rule>
    requires forall i :: 0 <= i < |order| ==> order[i] in routes
  {
    if order == [] then []
    else
      var n := |order| - 1;
      RulesInOrder(routes, order[..n], ifaces) + RulesForKey(order[n], routes[order[n]], ifaces)
  }

  /** Every route once, in some order. */
  ghost predicate Enumerates(routes: Routes, order: seq<Flow>) {
    && (forall i :: 0 <= i < |order| ==> order[i] in routes)
    && (forall i, j :: 0 <= i < j < |order| ==> order[i] != order[j])
    && (forall f :: f in routes ==> f in order)
  }

  // ---- Route events ----

  /** A route whose parent's hardware address was looked up, or a route withdrawn. */
  datatype RouteEvent = Added(flow: Flow, resolved: Option<string>) | Withdrawn(flow: Flow)

  /** What either manager makes of an event; it ignores a route it cannot resolve. */
  function Updated(routes: Routes, e: RouteEvent): Routes {
    match e
    case Added(f, resolved) => if resolved.Some? then routes[f := ToLower(resolved.value)] else routes
    case Withdrawn(f) => routes - {f}
  }

  function RoutesAfter(events: seq<RouteEvent>): Routes {
    if events == [] then map[] else Updated(RoutesAfter(events[..|events| - 1]), events[|events| - 1])
  }

  function ToLower(s: string): (r: string)
    ensures |r| == |s|
    ensures forall i :: 0 <= i < |s| ==> r[i] == (if 'A' <= s[i] <= 'Z' then (s[i] as int + 32) as char else s[i])
  {
    if s == "" then ""
    else
      var c := s[|s| - 1];
      ToLower(s[..|s| - 1]) + [if 'A' <= c <= 'Z' then (c as int + 32) as char else c]
  }

  class NFTablesManager {
    const interfaces: seq<string>
    var routes: Routes
    var rules: seq<Rule>

    constructor (interfaces: seq<string>)
      ensures this.interfaces == interfaces && routes == map[] && rules == []
    {
      this.interfaces, routes, rules := interfaces, map[], [];
    }

    /** Fails without a resolved hardware address; otherwise the rules follow the routes. */
    method OnMulticastRouteAdd(src: IP, grp: IP, resolved: Option<string>) returns (ok: bool)
      modifies this
      ensures ok <==> resolved.Some?
      ensures !ok ==> rules == old(rules)
      ensures routes == Updated(old(routes), Added((src, grp), resolved))
      ensures ok ==> exists order :: Enumerates(routes, order) && rules == RulesInOrder(routes, order, interfaces)
    {
      if resolved.None? {
        return false;
      }
      routes := routes[(src, grp) := ToLower(resolved.value)];
      ApplyRules();
      ok := true;
    }

    method OnMulticastRouteDelete(src: IP, grp: IP)
      modifies this
      ensures routes == Updated(old(routes), Withdrawn((src, grp)))
      ensures exists order :: Enumerates(routes, order) && rules == RulesInOrder(routes, order, interfaces)
    {
      routes := routes - {(src, grp)};
      ApplyRules();
    }

    /** Flushes the chain and writes it anew, in whatever order the map is visited. */
    method ApplyRules()
      modifies this`rules
      ensures exists order :: Enumerates(routes, order) && rules == RulesInOrder(routes, order, interfaces)
    {
      rules := [];
      ghost var order: seq<Flow> := [];
      var todo := routes.Keys;
      while todo != {}
        invariant todo <= routes.Keys
        invariant forall i :: 0 <= i < |order| ==> order[i] in routes && order[i] !in todo
        invariant forall i, j :: 0 <= i < j < |order| ==> order[i] != order[j]
        invariant forall f :: f in routes ==> f in order || f in todo
        invariant rules == RulesInOrder(routes, order, interfaces)
        decreases todo
      {
        var f :| f in todo;
        todo := todo - {f};
        assert (order + [f])[..|order|] == order;
        order := order + [f];
        if !f.0.V4? || !f.1.V4? {
          continue;
        }
        var block := FlowRules(f, routes[f]);
        rules := rules + block;
      }
      assert Enumerates(routes, order);
    }

    method FlowRules(f: Flow, mac: string) returns (block: seq<Rule>)
      ensures block == RulesOfFlow(f, mac, interfaces)
    {
      block := [];
      for i := 0 to |interfaces|
        invariant block == RulesOfFlow(f, mac, interfaces[..i])
      {
        assert interfaces[..i + 1][..i] == interfaces[..i];
        block := block + [Rule(interfaces[i], f.0, f.1, Some(mac), Accept)];
        block := block + [Rule(interfaces[i], f.0, f.1, None, Drop)];
      }
      assert interfaces[..|interfaces|] == interfaces;
    }
  }

  // ---- The per-packet verdict ----

  /** The verdict of the queue handler for an IPv4 packet. */
  function HookVerdict(routes: Routes, p: Packet): Verdict {
    if (p.source, p.group) !in routes then Accept
    else if p.hwAddr.Some? && FormatMAC(p.hwAddr.value) == routes[(p.source, p.group)] then Accept
    else Drop
  }

  /** An address in 224.0.0.0/4. */
  predicate Multicast(a: IP) {
    a.V4? && 0xE000_0000 <= a.v4 < 0xF000_0000
  }

  /** What becomes of a packet: it is queued for the handler only if it is IPv4, comes in
      on a configured interface and goes to a multicast address. */
  function QueueVerdict(routes: Routes, ifaces: seq<string>, p: Packet): Verdict {
    if p.iface in ifaces && IsV4((p.source, p.group)) && Multicast(p.group) then HookVerdict(routes, p) else Accept
  }

  class NFQueueManager {
    var routes: Routes

    constructor ()
      ensures routes == map[]
    {
      routes := map[];
    }

    method OnMulticastRouteAdd(src: IP, grp: IP, resolved: Option<string>) returns (ok: bool)
      modifies this
      ensures ok <==> resolved.Some?
      ensures routes == Updated(old(routes), Added((src, grp), resolved))
    {
      if resolved.None? {
        return false;
      }
      routes := routes[(src, grp) := ToLower(resolved.value)];
      ok := true;
    }

    method OnMulticastRouteDelete(src: IP, grp: IP)
      modifies this
      ensures routes == Updated(old(routes), Withdrawn((src, grp)))
    {
      routes := routes - {(src, grp)};
    }

    /** The verdict on one queued packet, from its raw payload: dropped exactly if it is
        IPv4, its source and destination, in network order, are a flow with a route, and
        its sender is not known to be the expected one. */
    method HookFunc(payload: seq<uint8>, hwAddr: Option<seq<uint8>>) returns (v: Verdict)
      ensures |payload| < 20 || payload[0] / 16 != 4 ==> v == Accept
      ensures |payload| >= 20 && payload[0] / 16 == 4 ==>
                var f := (V4(0x100_0000 * (payload[12] as int) + 0x1_0000 * (payload[13] as int) + 0x100 * (payload[14] as int) + payload[15] as int),
                          V4(0x100_0000 * (payload[16] as int) + 0x1_0000 * (payload[17] as int) + 0x100 * (payload[18] as int) + payload[19] as int));
                && v == HookVerdict(routes, Packet("", f.0, f.1, hwAddr))
                && (v == Drop <==> f in routes && !(hwAddr.Some? && FormatMAC(hwAddr.value) == routes[f]))
    {
      if |payload| < 20 || payload[0] / 16 != 4 {
        return Accept;
      }
      AddressInNumbers(payload, 12);
      AddressInNumbers(payload, 16);
      var key := (Address(payload, 12), Address(payload, 16));
      if key !in routes {
        return Accept;
      }
      if hwAddr.None? {
        return Drop;
      }
      var actual := FormatMACAddress(hwAddr.value);
      v := if actual == routes[key] then Accept else Drop;
    }
  }

  function Address(payload: seq<uint8>, at: nat): IP
    requires at + 4 <= |payload|
  {
    Wire.ReadIP(payload[at..at + 4])
  }

  lemma AddressInNumbers(payload: seq<uint8>, at: nat)
    requires at + 4 <= |payload|
    ensures Address(payload, at) ==
              V4(0x100_0000 * (payload[at] as int) + 0x1_0000 * (payload[at + 1] as int) + 0x100 * (payload[at + 2] as int) + payload[at + 3] as int)
  {}

  /** Bytes are written in order, two lower-case digits each. */
  lemma WrittenAddress()
    ensures FormatMAC([0x02, 0x5E, 0xAB]) == "02:5e:ab"
  {
    assert [Digit(0), Digit(2)] == "02" && [Digit(5), Digit(14)] == "5e" && [Digit(10), Digit(11)] == "ab";
    assert FormatMAC([0x02]) == "02";
    FormatMore([0x02], 0x5E);
    FormatMore([0x02, 0x5E], 0xAB);
    assert [0x02] + [0x5E] == [0x02, 0x5E] && [0x02, 0x5E] + [0xAB] == [0x02, 0x5E, 0xAB];
    assert FormatMAC([0x02, 0x5E]) == "02" + ":" + "5e" == "02:5e";
    assert "02:5e" + ":" + "ab" == "02:5e:ab";
  }

  lemma FormatMore(mac: seq<uint8>, b: uint8)
    requires mac != []
    ensures FormatMAC(mac + [b]) == FormatMAC(mac) + ":" + [Digit(b / 16), Digit(b % 16)]
  {
    assert (mac + [b])[..|mac|] == mac;
  }

  /** The groups that are queued are those of the prefix 224.0.0.0/4. */
  lemma MulticastIsPrefix(a: IP)
    ensures Multicast(a) <==> P.Matches(P.Cidr(V4(0xE000_0000), 4), a)
  {
    P.KnownPrefixes(a);
  }

  // ---- Which routes there are ----

  /** The i-th event gave the flow that text, and no later one changed or withdrew it. */
  ghost predicate LastWord(events: seq<RouteEvent>, i: nat, f: Flow, mac: string) {
    && i < |events| && events[i] == Added(f, Some(mac))
    && forall j :: i < j < |events| ==> events[j].flow != f || events[j] == Added(f, None)
  }

  /** After any run of events a flow has a route exactly if the last event about it that
      was not a failed lookup added it, and then it has that event's text in lower case. */
  lemma {:induction false} RoutesByLastWord(events: seq<RouteEvent>, f: Flow)
    ensures f in RoutesAfter(events) <==> exists i: nat, mac :: LastWord(events, i, f, mac)
    ensures forall i: nat, mac :: LastWord(events, i, f, mac) ==> f in RoutesAfter(events) && RoutesAfter(events)[f] == ToLower(mac)
  {
    if events != [] {
      var n := |events| - 1;
      var e := events[n];
      RoutesByLastWord(events[..n], f);
      LastWordNext(events, n, f);
      if e.flow == f && e.Added? && e.resolved.Some? {
        assert LastWord(events, n, f, e.resolved.value);
      } else if i: nat, mac :| LastWord(events[..n], i, f, mac) {
        assert LastWord(events, i, f, mac) <==> e.flow != f || e == Added(f, None);
      }
    }
  }

  lemma LastWordNext(events: seq<RouteEvent>, n: nat, f: Flow)
    requires |events| == n + 1
    ensures forall i: nat, mac :: LastWord(events, i, f, mac) <==>
              if i == n then events[n] == Added(f, Some(mac))
              else LastWord(events[..n], i, f, mac) && (events[n].flow != f || events[n] == Added(f, None))
  {
    forall i: nat, mac
      ensures LastWord(events, i, f, mac) <==>
                if i == n then events[n] == Added(f, Some(mac))
                else LastWord(events[..n], i, f, mac) && (events[n].flow != f || events[n] == Added(f, None))
    {
      if i < n {
        assert events[..n][i] == events[i];
        assert forall j :: i < j < n ==> events[..n][j] == events[j];
      }
    }
  }

  // ---- Both decide alike ----

  /** The text is how the address it stands for is formatted, or stands for none. */
  predicate Canonical(mac: string) {
    match ParseMAC(mac)
    case None => true
    case Some(hw) => FormatMAC(hw) == mac
  }

  /** Comparing texts and comparing addresses give the same answer for all senders
      exactly if the text is canonical. */
  lemma ComparesAlike(mac: string)
    ensures (forall hw :: hw != [] ==> (ParseMAC(mac) == Some(hw) <==> FormatMAC(hw) == mac)) <==> Canonical(mac)
  {
    forall hw | hw != [] && FormatMAC(hw) == mac
      ensures ParseMAC(mac) == Some(hw)
    {
      ParseFormat(hw);
    }
    if ParseMAC(mac).Some? {
      ParsesNonempty(mac);
      assert ParseMAC(mac).value != [];
    }
  }

  lemma ParsesNonempty(mac: string)
    requires ParseMAC(mac).Some?
    ensures ParseMAC(mac).value != []
  {}

  lemma {:induction false} FirstMatchAppend(a: seq<Rule>, b: seq<Rule>, p: Packet)
    ensures SomeMatches(a + b, p) <==> SomeMatches(a, p) || SomeMatches(b, p)
    ensures FirstMatch(a + b, p) == if SomeMatches(a, p) then FirstMatch(a, p) else FirstMatch(b, p)
  {
    MatchInAppend(a, b, p);
    if a == [] {
      assert a + b == b;
    } else {
      assert (a + b)[1..] == a[1..] + b;
      FirstMatchAppend(a[1..], b, p);
      MatchInAppend([a[0]], a[1..], p);
      assert [a[0]] + a[1..] == a;
    }
  }

  lemma MatchInAppend(a: seq<Rule>, b: seq<Rule>, p: Packet)
    ensures SomeMatches(a + b, p) <==> SomeMatches(a, p) || SomeMatches(b, p)
  {
    if i :| 0 <= i < |a| && Matches(a[i], p) {
      assert Matches((a + b)[i], p);
    }
    if i :| 0 <= i < |b| && Matches(b[i], p) {
      assert Matches((a + b)[|a| + i], p);
    }
  }

  lemma {:induction false} NoMatchAccepts(rules: seq<Rule>, p: Packet)
    requires !SomeMatches(rules, p)
    ensures FirstMatch(rules, p) == Accept
  {
    if rules != [] {
      forall i | 0 <= i < |rules| - 1
        ensures !Matches(rules[1..][i], p)
      {
        assert rules[1..][i] == rules[i + 1];
      }
      NoMatchAccepts(rules[1..], p);
    }
  }

  lemma PairDecides(f: Flow, mac: string, iface: string, p: Packet)
    ensures SomeMatches(Pair(f, mac, iface), p) <==> (p.source, p.group) == f && p.iface == iface
    ensures SomeMatches(Pair(f, mac, iface), p) ==>
              FirstMatch(Pair(f, mac, iface), p) == (if Sent(mac, p) then Accept else Drop)
  {
    var r := Pair(f, mac, iface);
    assert r[1..] == [r[1]];
    assert FirstMatch(r[1..], p) == if Matches(r[1], p) then r[1].verdict else FirstMatch([], p);
    assert Matches(r[1], p) <==> (p.source, p.group) == f && p.iface == iface;
  }

  /** A flow's rules decide its packets on its interfaces and touch no others. */
  lemma {:induction false} FlowDecides(f: Flow, mac: string, ifaces: seq<string>, p: Packet)
    ensures var rules := RulesOfFlow(f, mac, ifaces);
            && (SomeMatches(rules, p) <==> (p.source, p.group) == f && p.iface in ifaces)
            && (SomeMatches(rules, p) ==> FirstMatch(rules, p) == (if Sent(mac, p) then Accept else Drop))
  {
    hide Matches, Pair, Sent, SomeMatches, FirstMatch;
    if ifaces == [] {
      NothingMatches(p);
    } else {
      var n := |ifaces| - 1;
      FlowDecides(f, mac, ifaces[..n], p);
      FirstMatchAppend(RulesOfFlow(f, mac, ifaces[..n]), Pair(f, mac, ifaces[n]), p);
      PairDecides(f, mac, ifaces[n], p);
      assert p.iface in ifaces <==> p.iface in ifaces[..n] || p.iface == ifaces[n];
    }
  }

  lemma NothingMatches(p: Packet)
    ensures !SomeMatches([], p) && FirstMatch([], p) == Accept
  {}

  lemma KeyDecides(f: Flow, mac: string, ifaces: seq<string>, p: Packet)
    ensures var rules := RulesForKey(f, mac, ifaces);
            && (SomeMatches(rules, p) <==> IsV4(f) && (p.source, p.group) == f && p.iface in ifaces)
            && (SomeMatches(rules, p) ==> FirstMatch(rules, p) == (if Sent(mac, p) then Accept else Drop))
  {
    FlowDecides(f, mac, ifaces, p);
    NothingMatches(p);
  }

  /** A packet that the rules are about: of a listed IPv4 flow, on a configured interface. */
  predicate RuledOn(routes: Routes, ifaces: seq<string>, p: Packet) {
    IsV4((p.source, p.group)) && (p.source, p.group) in routes && p.iface in ifaces
  }

  /** The whole list, in any order of the routes: such a packet is dropped unless its
      sender is the expected one, any other packet is accepted. */
  lemma {:induction false} ListDecides(routes: Routes, order: seq<Flow>, ifaces: seq<string>, p: Packet)
    requires forall i :: 0 <= i < |order| ==> order[i] in routes
    ensures var f, rules := (p.source, p.group), RulesInOrder(routes, order, ifaces);
            && (SomeMatches(rules, p) <==> RuledOn(routes, ifaces, p) && f in order)
            && FirstMatch(rules, p) == if RuledOn(routes, ifaces, p) && f in order && !Sent(routes[f], p) then Drop else Accept
  {
    hide Matches, Sent, SomeMatches, FirstMatch, RulesForKey;
    NothingMatches(p);
    if order != [] {
      var n := |order| - 1;
      var front, block := RulesInOrder(routes, order[..n], ifaces), RulesForKey(order[n], routes[order[n]], ifaces);
      ListDecides(routes, order[..n], ifaces, p);
      KeyDecides(order[n], routes[order[n]], ifaces, p);
      FirstMatchAppend(front, block, p);
      assert (p.source, p.group) in order <==> (p.source, p.group) in order[..n] || (p.source, p.group) == order[n];
      if !SomeMatches(block, p) {
        NoMatchAccepts(block, p);
      }
    }
  }

  /** The two modes decide alike about the packet, whatever the order of the rules. */
  ghost predicate Agree(routes: Routes, ifaces: seq<string>, p: Packet) {
    QueueVerdict(routes, ifaces, p) == if RuledOn(routes, ifaces, p) && !Sent(routes[(p.source, p.group)], p) then Drop else Accept
  }

  lemma AgreeMeans(routes: Routes, order: seq<Flow>, ifaces: seq<string>, p: Packet)
    requires Enumerates(routes, order)
    ensures Agree(routes, ifaces, p) <==> FirstMatch(RulesInOrder(routes, order, ifaces), p) == QueueVerdict(routes, ifaces, p)
  {
    ListDecides(routes, order, ifaces, p);
  }

  /** A packet's hardware address, where there is one, is not empty. */
  predicate Proper(p: Packet) {
    p.hwAddr != Some([])
  }

  lemma SentIffFormatted(mac: string, p: Packet)
    requires Canonical(mac) && Proper(p)
    ensures Sent(mac, p) <==> p.hwAddr.Some? && FormatMAC(p.hwAddr.value) == mac
  {
    if p.hwAddr.Some? && FormatMAC(p.hwAddr.value) == mac {
      ParseFormat(p.hwAddr.value);
    }
  }

  /** On packets to multicast groups the modes agree if the flow's text is canonical. */
  lemma AgreeOnMulticast(routes: Routes, ifaces: seq<string>, p: Packet)
    requires Proper(p) && Multicast(p.group)
    requires (p.source, p.group) in routes ==> Canonical(routes[(p.source, p.group)])
    ensures Agree(routes, ifaces, p)
  {
    hide Canonical;
    if (p.source, p.group) in routes {
      SentIffFormatted(routes[(p.source, p.group)], p);
    }
  }

  /** Some packet of the flow on the interface on which they differ, unless the group is
      multicast and the text canonical. */
  lemma Disagree(routes: Routes, ifaces: seq<string>, iface: string, f: Flow) returns (p: Packet)
    requires iface in ifaces && f in routes && IsV4(f) && !(Multicast(f.1) && Canonical(routes[f]))
    ensures p.iface == iface && (p.source, p.group) == f && Proper(p) && !Agree(routes, ifaces, p)
  {
    if !Multicast(f.1) {
      p := Packet(iface, f.0, f.1, None);
    } else {
      ParsesNonempty(routes[f]);
      p := Packet(iface, f.0, f.1, ParseMAC(routes[f]));
    }
  }

  /** On all packets of a configured interface the modes agree exactly if each IPv4 flow
      with a route has a multicast group and a canonical address text. */
  lemma ModesAgreeIff(routes: Routes, order: seq<Flow>, ifaces: seq<string>, iface: string)
    requires Enumerates(routes, order) && iface in ifaces
    ensures (forall p: Packet :: p.iface == iface && Proper(p) ==>
               FirstMatch(RulesInOrder(routes, order, ifaces), p) == QueueVerdict(routes, ifaces, p))
            <==> forall f :: f in routes && IsV4(f) ==> Multicast(f.1) && Canonical(routes[f])
  {
    hide Canonical, Multicast, FirstMatch, RulesInOrder, QueueVerdict;
    if forall f :: f in routes && IsV4(f) ==> Multicast(f.1) && Canonical(routes[f]) {
      forall p: Packet | p.iface == iface && Proper(p)
        ensures FirstMatch(RulesInOrder(routes, order, ifaces), p) == QueueVerdict(routes, ifaces, p)
      {
        AgreeMeans(routes, order, ifaces, p);
        if IsV4((p.source, p.group)) && (p.source, p.group) in routes {
          AgreeOnMulticast(routes, ifaces, p);
        } else {
          UnruledAgree(routes, ifaces, p);
        }
      }
    } else {
      var f :| f in routes && IsV4(f) && !(Multicast(f.1) && Canonical(routes[f]));
      var p := Disagree(routes, ifaces, iface, f);
      AgreeMeans(routes, order, ifaces, p);
    }
  }

  lemma UnruledAgree(routes: Routes, ifaces: seq<string>, p: Packet)
    requires !IsV4((p.source, p.group)) || (p.source, p.group) !in routes
    ensures Agree(routes, ifaces, p)
  {}

  predicate NoCapitals(s: string) {
    forall i :: 0 <= i < |s| ==> !('A' <= s[i] <= 'Z')
  }

  lemma LowerByte(s: string)
    requires |s| == 2 && NoCapitals(s) && ParseByte(s).Some?
    ensures Hex(ParseByte(s).value) == s
  {
    LowerDigit(s[0]);
    LowerDigit(s[1]);
    var h, l := DigitValue(s[0]).value, DigitValue(s[1]).value;
    assert (16 * h + l) / 16 == h && (16 * h + l) % 16 == l;
  }

  lemma LowerDigit(c: char)
    requires !('A' <= c <= 'Z') && DigitValue(c).Some?
    ensures DigitValue(c).value < 16 && Digit(DigitValue(c).value) == c
  {
    if '0' <= c <= '9' {
      var n := c as int - '0' as int;
      assert n == 0 || n == 1 || n == 2 || n == 3 || n == 4 || n == 5 || n == 6 || n == 7 || n == 8 || n == 9;
    } else {
      var n := c as int - 'a' as int;
      assert n == 0 || n == 1 || n == 2 || n == 3 || n == 4 || n == 5;
    }
  }

  /** A text without capitals is canonical: it is how the address it stands for is
      formatted, or stands for none. */
  lemma {:induction false} LowerIsCanonical(s: string)
    requires NoCapitals(s)
    ensures Canonical(s)
  {
    hide Hex, ParseByte;
    if ParseMAC(s).Some? {
      if |s| == 2 {
        LowerByte(s);
      } else {
        var n := |s| - 3;
        LowerIsCanonical(s[..n]);
        ParsesNonempty(s[..n]);
        LowerByte(s[n + 1..]);
        var front, b := ParseMAC(s[..n]).value, ParseByte(s[n + 1..]).value;
        assert (front + [b])[..|front|] == front;
        assert s == s[..n] + ":" + s[n + 1..];
      }
    }
  }

  lemma {:induction false} RoutesAreCanonical(events: seq<RouteEvent>)
    ensures forall f :: f in RoutesAfter(events) ==> Canonical(RoutesAfter(events)[f])
  {
    hide Canonical;
    if events != [] {
      var e := events[|events| - 1];
      RoutesAreCanonical(events[..|events| - 1]);
      if e.Added? && e.resolved.Some? {
        LowerIsCanonical(ToLower(e.resolved.value));
      }
    }
  }

  /** After any run of route events, whatever texts the lookups gave and in whatever order
      the rules were written, the two modes agree on every packet to a multicast group. */
  lemma MulticastAlwaysAgrees(events: seq<RouteEvent>, order: seq<Flow>, ifaces: seq<string>, p: Packet)
    requires Enumerates(RoutesAfter(events), order) && Proper(p) && Multicast(p.group)
    ensures FirstMatch(RulesInOrder(RoutesAfter(events), order, ifaces), p) == QueueVerdict(RoutesAfter(events), ifaces, p)
  {
    hide Canonical, FirstMatch, RulesInOrder, QueueVerdict, Agree;
    RoutesAreCanonical(events);
    AgreeOnMulticast(RoutesAfter(events), ifaces, p);
    AgreeMeans(RoutesAfter(events), order, ifaces, p);
  }

  /** And on all packets of a configured interface exactly if every IPv4 flow that was
      added and not withdrawn has a multicast group. */
  lemma ModesAgreeAfterIff(events: seq<RouteEvent>, order: seq<Flow>, ifaces: seq<string>, iface: string)
    requires Enumerates(RoutesAfter(events), order) && iface in ifaces
    ensures (forall p: Packet :: p.iface == iface && Proper(p) ==>
               FirstMatch(RulesInOrder(RoutesAfter(events), order, ifaces), p) == QueueVerdict(RoutesAfter(events), ifaces, p))
            <==> forall f :: f in RoutesAfter(events) && IsV4(f) ==> Multicast(f.1)
  {
    hide Canonical, FirstMatch, RulesInOrder, QueueVerdict, Multicast, IsV4;
    RoutesAreCanonical(events);
    ModesAgreeIff(RoutesAfter(events), order, ifaces, iface);
  }

  /** Nothing checks that a group is multicast: with a route for the flow to 10.0.0.5, a
      packet from another sender is dropped by the rules and not even queued. */
  lemma UnicastGroupDiffers(src: uint32, mac: string, iface: string, hwAddr: seq<uint8>)
    requires FormatMAC(hwAddr) != ToLower(mac) && hwAddr != []
    ensures var f, p := (V4(src), V4(0x0A00_0005)), Packet(iface, V4(src), V4(0x0A00_0005), Some(hwAddr));
            var routes := RoutesAfter([Added(f, Some(mac))]);
            && Enumerates(routes, [f])
            && FirstMatch(RulesInOrder(routes, [f], [iface]), p) == Drop && QueueVerdict(routes, [iface], p) == Accept
  {
    hide Canonical, FirstMatch, RulesInOrder, ToLower, FormatMAC, ParseMAC, Sent, RoutesAfter;
    var f, p := (V4(src), V4(0x0A00_0005)), Packet(iface, V4(src), V4(0x0A00_0005), Some(hwAddr));
    var text := ToLower(mac);
    var routes := RoutesAfter([Added(f, Some(mac))]);
    OneRoute(f, mac);
    assert Enumerates(routes, [f]) by {
      assert [f][0] == f;
    }
    ListDecides(routes, [f], [iface], p);
    LowerIsCanonical(text);
    SentIffFormatted(text, p);
  }

  lemma OneRoute(f: Flow, mac: string)
    ensures RoutesAfter([Added(f, Some(mac))]) == map[f := ToLower(mac)]
  {
    hide ToLower;
    assert [Added(f, Some(mac))][..0] == [];
  }
}
