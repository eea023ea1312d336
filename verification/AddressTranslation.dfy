/** The network address translator of computer-networks/PA2/user/nat_machine.cpp. */
module AddressTranslation {

  const IP_LIMIT: nat := 0x1_0000_0000
  const PORT_LIMIT: nat := 0x1_0000
  const COUNTER_LIMIT: nat := 0x1_0000_0000

  datatype Endpoint = Endpoint(ip: nat, port: nat)

  datatype Packet = Packet(src: Endpoint, dst: Endpoint)

  datatype Entry = Entry(pub: Endpoint, loc: Endpoint)

  /** A public endpoint has been used towards an outer one. */
  datatype Session = Session(pub: Endpoint, outer: Endpoint)

  datatype Range = Range(begin: nat, end: nat)

  datatype Nat = Nat(
    ip: nat, table: seq<Entry>, sessions: seq<Session>, blocked: seq<Range>, basePort: nat, counter: nat)

  /** What becomes of a packet: forwarded, answered with a drop notice, or ignored. */
  datatype Outcome = Forward(packet: Packet) | Refuse(to: Endpoint) | Ignore

  // ---------- the operations ----------

  /** `calculate_new_address`, in 32-bit and 16-bit arithmetic. */
  function NewAddress(ip: nat, basePort: nat, counter: nat): Endpoint {
    Endpoint((ip + counter / 3 + 1) % IP_LIMIT, (basePort + counter % 3 * 100) % PORT_LIMIT)
  }

  function LocalIndex(table: seq<Entry>, loc: Endpoint): (i: nat)
    ensures i <= |table| && (i < |table| ==> table[i].loc == loc) && forall j :: 0 <= j < i ==> table[j].loc != loc
  {
    if table == [] || table[0].loc == loc then 0 else 1 + LocalIndex(table[1..], loc)
  }

  function PublicIndex(table: seq<Entry>, pub: Endpoint): (i: nat)
    ensures i <= |table| && (i < |table| ==> table[i].pub == pub) && forall j :: 0 <= j < i ==> table[j].pub != pub
  {
    if table == [] || table[0].pub == pub then 0 else 1 + PublicIndex(table[1..], pub)
  }

  predicate IsBlocked(n: Nat, port: nat) {
    exists i :: 0 <= i < |n.blocked| && n.blocked[i].begin <= port <= n.blocked[i].end
  }

  function WithEntry(n: Nat, loc: Endpoint): (r: Nat)
    ensures LocalIndex(r.table, loc) < |r.table|
  {
    var i := LocalIndex(n.table, loc);
    if i < |n.table| then n
    else
      var t := n.table + [Entry(NewAddress(n.ip, n.basePort, n.counter), loc)];
      assert t[|n.table|].loc == loc;
      n.(table := t, counter := (n.counter + 1) % COUNTER_LIMIT)
  }

  /** A packet from the inside, lines 116-156. */
  function Outbound(n: Nat, p: Packet): (Nat, Outcome) {
    if IsBlocked(n, p.src.port) then (n, Refuse(p.src))
    else
      var n1 := WithEntry(n, p.src);
      var pub := n1.table[LocalIndex(n1.table, p.src)].pub;
      (n1.(sessions := n1.sessions + [Session(pub, p.dst)]), Forward(Packet(pub, p.dst)))
  }

  /** A packet from the outside, lines 81-114. */
  function Inbound(n: Nat, p: Packet): Outcome {
    var i := PublicIndex(n.table, p.dst);
    if i == |n.table| then Ignore
    else if Session(p.dst, p.src) !in n.sessions then Refuse(p.src)
    else Forward(Packet(p.src, n.table[i].loc))
  }

  /** `reset_setting`: the counter goes on from where it was. */
  function Reset(n: Nat, basePort: nat): Nat { n.(blocked := [], table := [], sessions := [], basePort := basePort) }

  datatype Event = FromInside(p: Packet) | FromOutside(p: Packet) | Block(min: nat, max: nat) | ResetTo(basePort: nat)

  function Step(n: Nat, e: Event): Nat {
    match e
    case FromInside(p) => Outbound(n, p).0
    case FromOutside(_) => n
    case Block(min, max) => n.(blocked := n.blocked + [Range(min, max)])
    case ResetTo(basePort) => Reset(n, basePort)
  }

  function Run(n: Nat, events: seq<Event>): Nat {
    if events == [] then n else Step(Run(n, events[..|events| - 1]), events[|events| - 1])
  }

  /** The history says that port `p` is blocked: a range around it was blocked and no reset came after. */
  ghost predicate BlockedSince(events: seq<Event>, p: nat) {
    exists j :: 0 <= j < |events| && BlockedAt(events, j, p)
  }

  ghost predicate BlockedAt(events: seq<Event>, j: nat, p: nat)
    requires j < |events|
  {
    && events[j].Block? && events[j].min <= p <= events[j].max
    && forall i :: j < i < |events| ==> !events[i].ResetTo?
  }

  /** What the history says, without any table: who has sent to whom since the last reset. */
  ghost function Sent(events: seq<Event>): set<(Endpoint, Endpoint)> {
    if events == [] then {}
    else
      var before, e := events[..|events| - 1], events[|events| - 1];
      match e
      case FromInside(p) =>
        if BlockedSince(before, p.src.port) then Sent(before) else Sent(before) + {(p.src, p.dst)}
      case ResetTo(_) => {}
      case _ => Sent(before)
  }

  // ---------- what is blocked ----------

  lemma BlockedNext(events: seq<Event>, e: Event, p: nat)
    ensures BlockedSince(events + [e], p) <==>
            (e.Block? && e.min <= p <= e.max) || (!e.ResetTo? && BlockedSince(events, p))
  {
    var after := events + [e];
    if j :| 0 <= j < |after| && BlockedAt(after, j, p) {
      assert after[|events|] == e;
      if j < |events| {
        assert forall i :: j < i < |events| ==> events[i] == after[i];
        assert BlockedAt(events, j, p);
      }
    }
    if j :| 0 <= j < |events| && BlockedAt(events, j, p) {
      assert !e.ResetTo? ==> BlockedAt(after, j, p);
    }
    if e.Block? && e.min <= p <= e.max { assert BlockedAt(after, |events|, p); }
  }

  /** The stored ranges block exactly the ports that the history of events says. */
  lemma {:induction false} BlockedIff(n: Nat, events: seq<Event>, p: nat)
    requires Initial(n)
    ensures IsBlocked(Run(n, events), p) <==> BlockedSince(events, p)
  {
    hide BlockedSince;
    if events == [] {
      NeverBlocked(p);
    } else {
      var before, e := events[..|events| - 1], events[|events| - 1];
      BlockedIff(n, before, p);
      BlockedNext(before, e, p);
      assert before + [e] == events;
      StepBlocks(Run(n, before), e, p);
      hide Step;
    }
  }

  lemma NeverBlocked(p: nat)
    ensures !BlockedSince([], p)
  {
  }

  lemma StepBlocks(n: Nat, e: Event, p: nat)
    ensures IsBlocked(Step(n, e), p) <==>
            (e.Block? && e.min <= p <= e.max) || (!e.ResetTo? && IsBlocked(n, p))
  {
    var n1 := Step(n, e);
    if e.Block? {
      assert n1.blocked[|n.blocked|] == Range(e.min, e.max);
      if i :| 0 <= i < |n.blocked| && n.blocked[i].begin <= p <= n.blocked[i].end {
        assert n1.blocked[i] == n.blocked[i];
      }
    } else if !e.ResetTo? {
      assert n1.blocked == n.blocked;
    }
  }

  /** In every run, a packet from inside is answered with a drop notice to its source, and leaves no trace, exactly when
      a range around its source port has been blocked since the last reset. Otherwise it goes to its destination from
      the public endpoint of its source. */
  lemma RunOutboundIff(n: Nat, events: seq<Event>, p: Packet)
    requires Initial(n)
    ensures var m := Run(n, events);
            var (m1, out) := Outbound(m, p);
            && (out == Refuse(p.src) <==> BlockedSince(events, p.src.port))
            && (BlockedSince(events, p.src.port) ==> m1 == m)
            && (!BlockedSince(events, p.src.port) ==>
                  out.Forward? && out.packet.dst == p.dst && Entry(out.packet.src, p.src) in m1.table)
  {
    hide BlockedSince, Run, IsBlocked, LocalIndex;
    BlockedIff(n, events, p.src.port);
  }

  // ---------- the invariant ----------

  /** The counter after `i` allocations from `start`, in 32 bits. */
  function CounterAt(start: nat, i: nat): nat { (start + i) % COUNTER_LIMIT }

  ghost predicate EntryOk(n: Nat, start: nat, i: nat)
    requires i < |n.table|
  {
    n.table[i].pub == NewAddress(n.ip, n.basePort, CounterAt(start, i)) && LocalIndex(n.table, n.table[i].loc) == i
  }

  ghost predicate Entries(n: Nat, start: nat) {
    n.counter == CounterAt(start, |n.table|) && forall i :: 0 <= i < |n.table| ==> EntryOk(n, start, i)
  }

  ghost predicate SentFrom(n: Nat, sent: set<(Endpoint, Endpoint)>, i: nat, s: Session) {
    i < |n.table| && n.table[i].pub == s.pub && (n.table[i].loc, s.outer) in sent
  }

  /** The entries hold consecutive addresses for distinct local endpoints, and the sessions are what was sent. */
  ghost predicate Inv(n: Nat, start: nat, sent: set<(Endpoint, Endpoint)>) {
    && Entries(n, start)
    && (forall s :: s in n.sessions ==> exists i :: SentFrom(n, sent, i, s))
    && (forall x :: x in sent ==> HasSession(n, x.0, x.1))
  }

  ghost predicate HasSession(n: Nat, loc: Endpoint, outer: Endpoint) {
    var i := LocalIndex(n.table, loc);
    i < |n.table| && Session(n.table[i].pub, outer) in n.sessions
  }

  lemma {:induction false} LocalIndexAppend(t: seq<Entry>, e: Entry, loc: Endpoint)
    ensures LocalIndex(t + [e], loc) == if LocalIndex(t, loc) < |t| || e.loc == loc then LocalIndex(t, loc) else |t| + 1
  {
    var i := LocalIndex(t + [e], loc);
    var j := LocalIndex(t, loc);
    assert forall k :: 0 <= k < |t| ==> (t + [e])[k] == t[k];
    assert (t + [e])[|t|] == e;
  }

  lemma NewEntries(n: Nat, start: nat, loc: Endpoint)
    requires Entries(n, start)
    ensures Entries(WithEntry(n, loc), start) && n.table <= WithEntry(n, loc).table
  {
    hide LocalIndex, NewAddress, CounterAt;
    var n1 := WithEntry(n, loc);
    if LocalIndex(n.table, loc) == |n.table| {
      forall i | 0 <= i < |n1.table| ensures EntryOk(n1, start, i) {
        LocalIndexAppend(n.table, n1.table[|n.table|], n1.table[i].loc);
        if i < |n.table| { assert EntryOk(n, start, i); }
      }
      NextCounter(start, |n.table|);
    }
  }

  lemma NextCounter(start: nat, i: nat)
    ensures (CounterAt(start, i) + 1) % COUNTER_LIMIT == CounterAt(start, i + 1)
  {
  }

  lemma StillThere(n: Nat, loc: Endpoint, x: Endpoint)
    requires LocalIndex(n.table, x) < |n.table|
    ensures LocalIndex(WithEntry(n, loc).table, x) == LocalIndex(n.table, x)
  {
    if LocalIndex(n.table, loc) == |n.table| { LocalIndexAppend(n.table, WithEntry(n, loc).table[|n.table|], x); }
  }

  lemma OutboundShape(n: Nat, p: Packet)
    requires !IsBlocked(n, p.src.port)
    ensures var n1, n2 := WithEntry(n, p.src), Outbound(n, p).0;
            && n2 == n1.(sessions := n.sessions + [Session(n1.table[LocalIndex(n1.table, p.src)].pub, p.dst)])
            && n.table <= n1.table
  {
  }

  lemma OutboundSessions(n: Nat, sent: set<(Endpoint, Endpoint)>, p: Packet, s: Session)
    requires !IsBlocked(n, p.src.port) && s in Outbound(n, p).0.sessions
    requires s in n.sessions ==> exists i :: SentFrom(n, sent, i, s)
    ensures exists i :: SentFrom(Outbound(n, p).0, sent + {(p.src, p.dst)}, i, s)
  {
    hide IsBlocked, LocalIndex, WithEntry, Outbound;
    OutboundShape(n, p);
    var n1, n2 := WithEntry(n, p.src), Outbound(n, p).0;
    if s in n.sessions {
      var i: nat :| SentFrom(n, sent, i, s);
      assert n1.table[i] == n.table[i];
      assert SentFrom(n2, sent + {(p.src, p.dst)}, i, s);
    } else {
      assert SentFrom(n2, sent + {(p.src, p.dst)}, LocalIndex(n1.table, p.src), s);
    }
  }

  lemma OutboundSent(n: Nat, p: Packet, loc: Endpoint, outer: Endpoint)
    requires !IsBlocked(n, p.src.port) && (HasSession(n, loc, outer) || (loc, outer) == (p.src, p.dst))
    ensures HasSession(Outbound(n, p).0, loc, outer)
  {
    hide IsBlocked, LocalIndex, WithEntry, Outbound;
    OutboundShape(n, p);
    if HasSession(n, loc, outer) { StillThere(n, p.src, loc); }
  }

  lemma OutboundKeeps(n: Nat, start: nat, sent: set<(Endpoint, Endpoint)>, p: Packet)
    requires Inv(n, start, sent) && !IsBlocked(n, p.src.port)
    ensures Inv(Outbound(n, p).0, start, sent + {(p.src, p.dst)})
  {
    hide IsBlocked, LocalIndex, WithEntry, Outbound, Entries, HasSession, SentFrom;
    var n2, sent' := Outbound(n, p).0, sent + {(p.src, p.dst)};
    OutboundShape(n, p);
    NewEntries(n, start, p.src);
    SameEntries(WithEntry(n, p.src), n2, start);
    forall s | s in n2.sessions ensures exists i :: SentFrom(n2, sent', i, s) { OutboundSessions(n, sent, p, s); }
    forall x | x in sent' ensures HasSession(n2, x.0, x.1) { OutboundSent(n, p, x.0, x.1); }
  }

  lemma SameEntries(n: Nat, n1: Nat, start: nat)
    requires Entries(n, start) && n1.table == n.table && n1.counter == n.counter && n1.ip == n.ip
    requires n1.basePort == n.basePort
    ensures Entries(n1, start)
  {
    forall i | 0 <= i < |n1.table| ensures EntryOk(n1, start, i) { assert EntryOk(n, start, i); }
  }

  lemma StepKeeps(n: Nat, start: nat, sent: set<(Endpoint, Endpoint)>, e: Event)
    requires Inv(n, start, sent)
    ensures match e
            case FromInside(p) =>
              Inv(Step(n, e), start, if IsBlocked(n, p.src.port) then sent else sent + {(p.src, p.dst)})
            case ResetTo(_) => Inv(Step(n, e), n.counter, {})
            case _ => Inv(Step(n, e), start, sent)
  {
    hide IsBlocked;
    match e
    case FromInside(p) => if !IsBlocked(n, p.src.port) { OutboundKeeps(n, start, sent, p); }
    case FromOutside(_) =>
    case Block(min, max) =>
      var n1 := Step(n, e);
      SameEntries(n, n1, start);
      forall s | s in n1.sessions ensures exists i :: SentFrom(n1, sent, i, s) {
        var i: nat :| SentFrom(n, sent, i, s);
        assert SentFrom(n1, sent, i, s);
      }
      forall x | x in sent ensures HasSession(n1, x.0, x.1) { assert HasSession(n, x.0, x.1); }
    case ResetTo(_) =>
  }

  /** `initialize` */
  predicate Initial(n: Nat) { n.table == [] && n.sessions == [] && n.blocked == [] && n.counter == 0 }

  /** Every run keeps the invariant, whatever is blocked and however often the translator is reset. */
  lemma {:induction false} RunKeeps(n: Nat, events: seq<Event>)
    requires Initial(n)
    ensures exists start :: Inv(Run(n, events), start, Sent(events))
  {
    hide Inv, Step, IsBlocked, BlockedSince;
    if events == [] {
      InitialInv(n);
      assert Inv(Run(n, events), 0, Sent(events));
    } else {
      var before, e := events[..|events| - 1], events[|events| - 1];
      RunKeeps(n, before);
      var start :| Inv(Run(n, before), start, Sent(before));
      StepKeeps(Run(n, before), start, Sent(before), e);
      if e.FromInside? { BlockedIff(n, before, e.p.src.port); }
      var start' := if e.ResetTo? then Run(n, before).counter else start;
      assert Inv(Run(n, events), start', Sent(events));
    }
  }

  lemma InitialInv(n: Nat)
    requires Initial(n)
    ensures Inv(n, 0, {})
  {
  }

  // ---------- what it means ----------

  lemma AddressInjective(ip: nat, basePort: nat, c: nat, d: nat)
    requires c < COUNTER_LIMIT && d < COUNTER_LIMIT
    ensures NewAddress(ip, basePort, c) == NewAddress(ip, basePort, d) <==> c == d
  {
    if NewAddress(ip, basePort, c) == NewAddress(ip, basePort, d) {
      Offset(ip + 1, c / 3, d / 3, IP_LIMIT);
      Offset(basePort, c % 3 * 100, d % 3 * 100, PORT_LIMIT);
      assert c == c / 3 * 3 + c % 3 && d == d / 3 * 3 + d % 3;
    }
  }

  lemma Offset(a: nat, x: nat, y: nat, m: nat)
    requires m in {IP_LIMIT, PORT_LIMIT} && x < m && y < m && (a + x) % m == (a + y) % m
    ensures x == y
  {
  }

  ghost predicate OneToOne(table: seq<Entry>) {
    forall i, j :: 0 <= i < j < |table| ==> table[i].pub != table[j].pub && table[i].loc != table[j].loc
  }

  lemma Different(n: Nat, start: nat, i: nat, j: nat)
    requires Entries(n, start) && i < j < |n.table| <= COUNTER_LIMIT
    ensures n.table[i].pub != n.table[j].pub && n.table[i].loc != n.table[j].loc
  {
    hide NewAddress, LocalIndex;
    assert EntryOk(n, start, i) && EntryOk(n, start, j);
    Offset32(start, i, j);
    AddressInjective(n.ip, n.basePort, CounterAt(start, i), CounterAt(start, j));
  }

  lemma Repeats(n: Nat, start: nat)
    requires Entries(n, start) && |n.table| > COUNTER_LIMIT
    ensures n.table[0].pub == n.table[COUNTER_LIMIT].pub
  {
    hide NewAddress, LocalIndex;
    assert EntryOk(n, start, 0) && EntryOk(n, start, COUNTER_LIMIT);
    assert CounterAt(start, COUNTER_LIMIT) == CounterAt(start, 0);
  }

  /** The table is one-to-one exactly as long as it has no more than 2^32 entries, that is, until more than
      2^32 addresses have been given out since the last reset. */
  lemma OneToOneIff(n: Nat, start: nat, sent: set<(Endpoint, Endpoint)>)
    requires Inv(n, start, sent)
    ensures OneToOne(n.table) <==> |n.table| <= COUNTER_LIMIT
  {
    hide Entries;
    if |n.table| <= COUNTER_LIMIT {
      forall i, j | 0 <= i < j < |n.table|
        ensures n.table[i].pub != n.table[j].pub && n.table[i].loc != n.table[j].loc
      {
        Different(n, start, i, j);
      }
    } else {
      Repeats(n, start);
    }
  }

  lemma Offset32(a: nat, x: nat, y: nat)
    requires x < y < COUNTER_LIMIT
    ensures CounterAt(a, x) != CounterAt(a, y)
  {
  }

  lemma LocalAt(n: Nat, start: nat, k: nat)
    requires Entries(n, start) && k < |n.table|
    ensures LocalIndex(n.table, n.table[k].loc) == k
  {
    assert EntryOk(n, start, k);
  }

  /** `k` packets from different local endpoints to `d`. */
  function Senders(k: nat, d: Endpoint): seq<Event> {
    seq(k, i requires 0 <= i < k => FromInside(Packet(Sender(i), d)))
  }

  function Sender(i: nat): Endpoint { Endpoint(i / PORT_LIMIT, i % PORT_LIMIT) }

  lemma SenderInjective(i: nat, j: nat)
    ensures Sender(i) == Sender(j) <==> i == j
  {
    assert i == i / PORT_LIMIT * PORT_LIMIT + i % PORT_LIMIT && j == j / PORT_LIMIT * PORT_LIMIT + j % PORT_LIMIT;
  }

  /** Each of them gets an entry of its own. */
  lemma {:induction false} SendersTable(n: Nat, k: nat, d: Endpoint)
    requires Initial(n)
    ensures var m := Run(n, Senders(k, d));
            m.blocked == [] && |m.table| == k && forall i :: 0 <= i < k ==> m.table[i].loc == Sender(i)
  {
    hide LocalIndex, NewAddress, Sender;
    if k > 0 {
      var events := Senders(k, d);
      assert events[..k - 1] == Senders(k - 1, d);
      SendersTable(n, k - 1, d);
      var m := Run(n, Senders(k - 1, d));
      forall i | 0 <= i < k - 1 ensures m.table[i].loc != Sender(k - 1) { SenderInjective(i, k - 1); }
      assert LocalIndex(m.table, Sender(k - 1)) == |m.table|;
    }
  }

  /** A run that breaks the table: 2^32 + 1 senders, of which the last gets the public endpoint of the first. */
  lemma TooManySenders(n: Nat, d: Endpoint)
    requires Initial(n)
    ensures !OneToOne(Run(n, Senders(COUNTER_LIMIT + 1, d)).table)
  {
    hide Inv, Run, Sent, Senders, OneToOne;
    var events := Senders(COUNTER_LIMIT + 1, d);
    SendersTable(n, COUNTER_LIMIT + 1, d);
    RunKeeps(n, events);
    var start :| Inv(Run(n, events), start, Sent(events));
    OneToOneIff(Run(n, events), start, Sent(events));
  }

  /** What is let in was asked for. */
  lemma Admitted(n: Nat, start: nat, sent: set<(Endpoint, Endpoint)>, p: Packet)
    requires Inv(n, start, sent) && |n.table| <= COUNTER_LIMIT && Inbound(n, p).Forward?
    ensures Inbound(n, p).packet.src == p.src
    ensures Entry(p.dst, Inbound(n, p).packet.dst) in n.table && (Inbound(n, p).packet.dst, p.src) in sent
  {
    hide LocalIndex, PublicIndex, Entries, HasSession;
    OneToOneIff(n, start, sent);
    var i, s := PublicIndex(n.table, p.dst), Session(p.dst, p.src);
    var k: nat :| SentFrom(n, sent, k, s);
    assert k == i;
    assert n.table[i] == Entry(p.dst, Inbound(n, p).packet.dst);
  }

  /** What was asked for is let in. */
  lemma Admits(n: Nat, start: nat, sent: set<(Endpoint, Endpoint)>, p: Packet, k: nat)
    requires Inv(n, start, sent) && |n.table| <= COUNTER_LIMIT
    requires k < |n.table| && n.table[k].pub == p.dst && (n.table[k].loc, p.src) in sent
    ensures Inbound(n, p) == Forward(Packet(p.src, n.table[k].loc))
  {
    hide LocalIndex, PublicIndex, Entries, SentFrom;
    OneToOneIff(n, start, sent);
    LocalAt(n, start, k);
    assert HasSession(n, n.table[k].loc, p.src);
    assert PublicIndex(n.table, p.dst) == k;
  }

  /** An outside packet is let in exactly when the local endpoint behind its destination has sent to its source
      since the last reset, and it is delivered to that endpoint. */
  lemma InboundIff(n: Nat, start: nat, sent: set<(Endpoint, Endpoint)>, p: Packet, loc: Endpoint)
    requires Inv(n, start, sent) && |n.table| <= COUNTER_LIMIT
    ensures Inbound(n, p) == Forward(Packet(p.src, loc)) <==> Entry(p.dst, loc) in n.table && (loc, p.src) in sent
  {
    hide Inv, Inbound;
    if Inbound(n, p) == Forward(Packet(p.src, loc)) { Admitted(n, start, sent, p); }
    if Entry(p.dst, loc) in n.table && (loc, p.src) in sent {
      var k :| 0 <= k < |n.table| && n.table[k] == Entry(p.dst, loc);
      Admits(n, start, sent, p, k);
    }
  }

  /** The same for every run: the table against the bare history of who sent to whom. */
  lemma RunInboundIff(n: Nat, events: seq<Event>, p: Packet, loc: Endpoint)
    requires Initial(n) && |Run(n, events).table| <= COUNTER_LIMIT
    ensures OneToOne(Run(n, events).table)
    ensures Inbound(Run(n, events), p) == Forward(Packet(p.src, loc)) <==>
            Entry(p.dst, loc) in Run(n, events).table && (loc, p.src) in Sent(events)
  {
    hide Inv, Inbound, Run, Sent, OneToOne;
    RunKeeps(n, events);
    var start :| Inv(Run(n, events), start, Sent(events));
    OneToOneIff(Run(n, events), start, Sent(events));
    InboundIff(Run(n, events), start, Sent(events), p, loc);
  }

  /** A packet that went out can be answered: the reply to its translated source comes back to its sender. */
  lemma ReplyReturns(n: Nat, start: nat, sent: set<(Endpoint, Endpoint)>, p: Packet)
    requires Inv(n, start, sent) && Outbound(n, p).1.Forward? && |Outbound(n, p).0.table| <= COUNTER_LIMIT
    ensures var (n1, out) := Outbound(n, p);
            Inbound(n1, Packet(out.packet.dst, out.packet.src)) == Forward(Packet(p.dst, p.src))
  {
    hide IsBlocked;
    var n1, out := Outbound(n, p).0, Outbound(n, p).1;
    OutboundKeeps(n, start, sent, p);
    InboundIff(n1, start, sent + {(p.src, p.dst)}, Packet(out.packet.dst, out.packet.src), p.src);
    var k := LocalIndex(n1.table, p.src);
    assert n1.table[k] == Entry(out.packet.src, p.src);
  }

  // ---------- the machine ----------

  class NatMachine {
    const ip: nat
    var table: seq<Entry>
    var sessions: seq<Session>
    var blocked: seq<Range>
    var basePort: nat
    var counter: nat

    function State(): Nat
      reads this
    {
      Nat(ip, table, sessions, blocked, basePort, counter)
    }

    /** `initialize` */
    constructor (ip: nat)
      ensures this.ip == ip && Initial(State()) && basePort == 2000
    {
      this.ip, table, sessions, blocked, basePort, counter := ip, [], [], [], 2000, 0;
    }

    method ValidInRange(port: nat) returns (valid: bool)
      ensures valid <==> !IsBlocked(State(), port)
    {
      for i := 0 to |blocked|
        invariant forall j :: 0 <= j < i ==> !(blocked[j].begin <= port <= blocked[j].end)
      {
        if port <= blocked[i].end && port >= blocked[i].begin { return false; }
      }
      return true;
    }

    /** The size of the table stands for -1. */
    method FindInLocalTable(loc: Endpoint) returns (i: nat)
      ensures i == LocalIndex(table, loc)
    {
      i := 0;
      while i < |table|
        invariant i <= |table| && forall j :: 0 <= j < i ==> table[j].loc != loc
      {
        if table[i].loc == loc { return; }
        i := i + 1;
      }
    }

    method FindInOuterTable(pub: Endpoint) returns (i: nat)
      ensures i == PublicIndex(table, pub)
    {
      i := 0;
      while i < |table|
        invariant i <= |table| && forall j :: 0 <= j < i ==> table[j].pub != pub
      {
        if table[i].pub == pub { return; }
        i := i + 1;
      }
    }

    method FindInSession(pub: Endpoint, outer: Endpoint) returns (found: bool)
      ensures found <==> Session(pub, outer) in sessions
    {
      for i := 0 to |sessions|
        invariant Session(pub, outer) !in sessions[..i]
      {
        if sessions[i].pub == pub && sessions[i].outer == outer { return true; }
        assert sessions[..i + 1] == sessions[..i] + [sessions[i]];
      }
      assert sessions[..|sessions|] == sessions;
      return false;
    }

    /** `calculate_new_address` */
    method CalculateNewAddress() returns (a: Endpoint)
      modifies this`counter
      ensures a == NewAddress(ip, basePort, old(counter)) && counter == (old(counter) + 1) % COUNTER_LIMIT
    {
      a := Endpoint((ip + counter / 3 + 1) % IP_LIMIT, (basePort + counter % 3 * 100) % PORT_LIMIT);
      counter := (counter + 1) % COUNTER_LIMIT;
    }

    /** `processFrame` on interface 0. */
    method FromOuter(p: Packet) returns (out: Outcome)
      ensures out == Inbound(State(), p)
    {
      var i := FindInOuterTable(p.dst);
      if i == |table| { return Ignore; }
      var known := FindInSession(p.dst, p.src);
      if !known { return Refuse(p.src); }
      return Forward(Packet(p.src, table[i].loc));
    }

    /** `processFrame` on any other interface. */
    method FromInner(p: Packet) returns (out: Outcome)
      modifies this
      ensures (State(), out) == Outbound(old(State()), p)
    {
      var valid := ValidInRange(p.src.port);
      if !valid { return Refuse(p.src); }
      var i := FindInLocalTable(p.src);
      ghost var n1 := WithEntry(State(), p.src);
      if i == |table| {
        var a := CalculateNewAddress();
        table := table + [Entry(a, p.src)];
        i := |table| - 1;
        LocalIndexAppend(table[..i], table[i], p.src);
        assert table == table[..i] + [table[i]];
      }
      assert State() == n1 && i == LocalIndex(table, p.src);
      sessions := sessions + [Session(table[i].pub, p.dst)];
      return Forward(Packet(table[i].pub, p.dst));
    }

    method BlockRange(min: nat, max: nat)
      modifies this`blocked
      ensures State() == Step(old(State()), Block(min, max))
      ensures forall p: nat :: IsBlocked(State(), p) <==> IsBlocked(old(State()), p) || min <= p <= max
    {
      forall p: nat
        ensures IsBlocked(Step(State(), Block(min, max)), p) <==> IsBlocked(State(), p) || min <= p <= max
      {
        StepBlocks(State(), Block(min, max), p);
      }
      blocked := blocked + [Range(min, max)];
    }

    method ResetSetting(base: nat)
      modifies this
      ensures State() == Reset(old(State()), base) && forall p: nat :: !IsBlocked(State(), p)
    {
      blocked, table, sessions, basePort := [], [], [], base;
    }
  }
}
