/** What one router does with the messages of a packet, as far as flooding goes: which
    it takes for duplicates, whom it counts as selectors, and what it sends on. */
module Relay {
  import opened Common
  import opened Messages
  import opened Wire
  import opened Routers
  import Expiry
  import D = Duplicates
  import NT = NeighborTables

  /** The part of a router's state that decides about relaying. */
  datatype View = View(dups: D.Dups, selectors: map<IP, Nanos>)

  predicate IsSelector(selectors: map<IP, Nanos>, ip: IP, now: Nanos) {
    ip in selectors && now < selectors[ip]
  }

  predicate ShouldForward(sender: IP, m: Message, selectors: map<IP, Nanos>, now: Nanos) {
    && m.header.ttl > 1 && m.header.msgType != HELLO && m.header.msgType != CONFIRM_PARENT
    && (m.header.msgType == SOURCE_CLAIM || IsSelector(selectors, sender, now))
  }

  /** The message fits a packet of its own; a body of unknown type never does. */
  predicate Sendable(m: Message) {
    MessageOk(m) && 4 + |MessageBytes(m)| <= MAX_SIZE
  }

  ghost function SelectorsAfter(me: IP, selectors: map<IP, Nanos>, m: Message, now: Nanos): map<IP, Nanos> {
    if m.header.msgType == HELLO && m.body.Hello?
    then NT.SelectorsAfter(me, selectors, m.header.originator, m.body.hello, now + m.header.vtime)
    else selectors
  }

  /** One message: own messages and duplicates are dropped; anything else is recorded,
      processed, and perhaps relayed. */
  ghost function Handle(me: IP, sender: IP, now: Nanos, m: Message, v: View): (View, Option<Message>) {
    var h := m.header;
    if h.originator == me || D.Live(v.dups, h.originator, h.seqNum, now) then (v, None)
    else
      var w := View(D.AfterQuery(v.dups, h.originator, h.seqNum, h.vtime, now), SelectorsAfter(me, v.selectors, m, now));
      (w, if ShouldForward(sender, m, w.selectors, now) && Sendable(m) then Some(Relayed(m)) else None)
  }

  function Append<A>(xs: seq<A>, x: Option<A>): seq<A> {
    if x.Some? then xs + [x.value] else xs
  }

  /** All the messages of a packet, in order. */
  ghost function HandleAll(me: IP, sender: IP, now: Nanos, ms: seq<Message>, v: View): (View, seq<Message>) {
    if ms == [] then (v, [])
    else
      var (w, sent) := HandleAll(me, sender, now, ms[..|ms| - 1], v);
      var (x, relay) := Handle(me, sender, now, ms[|ms| - 1], w);
      (x, Append(sent, relay))
  }

  /** A relayed copy is the message it came from with the two hop counts moved in
      opposite directions. */
  lemma HandleRelays(me: IP, sender: IP, now: Nanos, m: Message, v: View)
    ensures var r := Handle(me, sender, now, m, v).1;
            r.Some? ==>
              && r.value.body == m.body
              && r.value.header == m.header.(ttl := m.header.ttl - 1, hopCount := r.value.header.hopCount)
              && (m.header.hopCount < 255 ==>
                    r.value.header.ttl + r.value.header.hopCount == m.header.ttl + m.header.hopCount)
  {
    hide MessageOk, MessageBytes, SelectorsAfter, IsSelector, D.Live, D.AfterQuery;
  }

  lemma HandleNone(me: IP, sender: IP, now: Nanos, v: View)
    ensures HandleAll(me, sender, now, [], v) == (v, [])
  {}

  /** One message more. */
  lemma HandleAllStep(me: IP, sender: IP, now: Nanos, ms: seq<Message>, i: nat, v: View)
    requires i < |ms|
    ensures var (w, sent) := HandleAll(me, sender, now, ms[..i], v);
            var (x, relay) := Handle(me, sender, now, ms[i], w);
            HandleAll(me, sender, now, ms[..i + 1], v) == (x, Append(sent, relay))
  {
    assert ms[..i + 1][..i] == ms[..i];
  }

  // ---- As part of the whole router ----

  function ViewOf(r: Router): View {
    View(r.dups, r.tables.mprSelectors)
  }

  /** Handling a message changes the view as the whole router's step does. */
  lemma HandleIsStep(me: IP, sender: IP, now: Nanos, m: Message, r: Router, r': Router)
    requires MessageStep(me, sender, now, m, r, r')
    ensures Handle(me, sender, now, m, ViewOf(r)).0 == ViewOf(r')
  {
    hide NT.HelloStep, NT.SelectorsAfter, TuplesStep, ClaimsStep, ConfirmedStep, ShouldForward, Sendable;
    if IsNew(me, r, m, now) && m.header.msgType == HELLO && m.body.Hello? {
      NT.HelloSelectors(me, r.tables, sender, m.header.originator, m.body.hello, m.header.vtime, now, r'.tables);
    }
  }

  function Aged(v: View, now: Nanos): View {
    View(D.AfterAging(v.dups, now), Expiry.Unexpired(v.selectors, now))
  }

  lemma AgedIsStep(now: Nanos, r: Router, r': Router)
    requires AgingStep(now, r, r')
    ensures ViewOf(r') == Aged(ViewOf(r), now)
  {
    hide NT.MprChoice;
  }

  // ---- The rule, in numbers ----

  /** A message is relayed if it may travel at least one more hop, is neither a HELLO (1) nor a
      confirmation (109), and is a source claim (108) or came from a selector whose entry
      lasts beyond now. */
  lemma ForwardsInNumbers(sender: IP, m: Message, selectors: map<IP, Nanos>, now: Nanos)
    ensures ShouldForward(sender, m, selectors, now) <==>
              && m.header.ttl >= 2 && m.header.msgType != 1 && m.header.msgType != 109
              && (m.header.msgType == 108 || (sender in selectors && now < selectors[sender]))
  {}

  /** A message is handled once: own ones and those with an entry that lasts beyond now are
      dropped, all others recorded until now + vtime. */
  lemma HandledOnce(me: IP, sender: IP, now: Nanos, m: Message, v: View)
    ensures var h := m.header; var r := Handle(me, sender, now, m, v);
            if h.originator == me || (h.originator in v.dups && h.seqNum in v.dups[h.originator] && now < v.dups[h.originator][h.seqNum])
            then r == (v, None)
            else h.originator in r.0.dups && h.seqNum in r.0.dups[h.originator] && r.0.dups[h.originator][h.seqNum] == now + h.vtime
  {
    hide ShouldForward, Sendable;
  }
}
