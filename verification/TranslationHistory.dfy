/** The tables of computer-networks/PA2/user/nat_machine.cpp against the bare history of events: who has which public
    endpoint, and what becomes of every packet. */
module TranslationHistory {
  import opened AddressTranslation

  /** The local endpoints that have sent since the last reset, in the order of their first packet. */
  ghost function Locals(events: seq<Event>): seq<Endpoint> {
    if events == [] then []
    else
      var before, e := Locals(events[..|events| - 1]), events[|events| - 1];
      match e
      case FromInside(p) =>
        if BlockedSince(events[..|events| - 1], p.src.port) || p.src in before then before else before + [p.src]
      case ResetTo(_) => []
      case _ => before
  }

  /** How many public endpoints were given out before the last reset. */
  ghost function Spent(events: seq<Event>): nat {
    if events == [] then 0
    else
      var before := events[..|events| - 1];
      Spent(before) + if events[|events| - 1].ResetTo? then |Locals(before)| else 0
  }

  /** The base port of the last reset, or `base` if there was none. */
  function BaseOf(base: nat, events: seq<Event>): nat {
    if events == [] then base
    else if events[|events| - 1].ResetTo? then events[|events| - 1].basePort else BaseOf(base, events[..|events| - 1])
  }

  /** The public endpoint of the local endpoint number `i`: addresses follow the own one, three ports on each, 100
      apart, and numbering goes on across resets. */
  ghost function PublicOf(n: Nat, events: seq<Event>, i: nat): Endpoint {
    var k := (Spent(events) + i) % COUNTER_LIMIT;
    Slot(n.ip, BaseOf(n.basePort, events), k / 3, k % 3)
  }

  /** Port number `r` on address number `a`. */
  function Slot(ip: nat, base: nat, a: nat, r: nat): Endpoint {
    Endpoint((ip + 1 + a) % IP_LIMIT, (base + 100 * r) % PORT_LIMIT)
  }

  /** `calculate_new_address` fills the slots in order: three on an address, then the next address. */
  lemma NewAddressSlots(ip: nat, base: nat, a: nat, r: nat)
    requires r < 3
    ensures NewAddress(ip, base, 3 * a + r) == Slot(ip, base, a, r)
  {
    assert (3 * a + r) / 3 == a && (3 * a + r) % 3 == r;
  }

  /** What the table is, said by the history alone. */
  ghost predicate TableIs(n: Nat, m: Nat, events: seq<Event>) {
    && m.ip == n.ip && m.basePort == BaseOf(n.basePort, events)
    && |m.table| == |Locals(events)| && m.counter == CounterAt(Spent(events), |m.table|)
    && forall i :: 0 <= i < |m.table| ==> m.table[i] == Entry(PublicOf(n, events, i), Locals(events)[i])
  }

  lemma LocalIn(table: seq<Entry>, locals: seq<Endpoint>, x: Endpoint)
    requires |table| == |locals| && forall i :: 0 <= i < |table| ==> table[i].loc == locals[i]
    ensures LocalIndex(table, x) < |table| <==> x in locals
  {
    if x in locals { var i :| 0 <= i < |locals| && locals[i] == x; }
  }

  lemma HistoryNext(n: Nat, events: seq<Event>, e: Event)
    ensures var after, locals := events + [e], Locals(events);
            && Locals(after)
               == (if e.ResetTo? then []
                   else if e.FromInside? && !BlockedSince(events, e.p.src.port) && e.p.src !in locals then
                     locals + [e.p.src]
                   else locals)
            && Spent(after) == Spent(events) + (if e.ResetTo? then |locals| else 0)
            && BaseOf(n.basePort, after) == (if e.ResetTo? then e.basePort else BaseOf(n.basePort, events))
  {
    hide BlockedSince;
    assert (events + [e])[..|events|] == events && (events + [e])[|events|] == e;
  }

  lemma SlotOf(n: Nat, events: seq<Event>, i: nat)
    ensures PublicOf(n, events, i) == NewAddress(n.ip, BaseOf(n.basePort, events), CounterAt(Spent(events), i))
  {
    var k := CounterAt(Spent(events), i);
    NewAddressSlots(n.ip, BaseOf(n.basePort, events), k / 3, k % 3);
    assert k == 3 * (k / 3) + k % 3;
  }

  lemma SenderTable(n: Nat, m: Nat, events: seq<Event>, p: Packet)
    requires TableIs(n, m, events) && (IsBlocked(m, p.src.port) <==> BlockedSince(events, p.src.port))
    ensures TableIs(n, Outbound(m, p).0, events + [FromInside(p)])
  {
    hide IsBlocked, BlockedSince, LocalIndex, NewAddress, Locals, Spent, BaseOf, CounterAt, Slot;
    var after := events + [FromInside(p)];
    HistoryNext(n, events, FromInside(p));
    LocalIn(m.table, Locals(events), p.src);
    SlotOf(n, events, |m.table|);
    NextCounter(Spent(events), |m.table|);
    assert forall i: nat :: PublicOf(n, after, i) == PublicOf(n, events, i);
  }

  lemma ResetTable(n: Nat, m: Nat, events: seq<Event>, base: nat)
    requires TableIs(n, m, events)
    ensures TableIs(n, Reset(m, base), events + [ResetTo(base)])
  {
    hide Locals, Spent, BaseOf, BlockedSince;
    HistoryNext(n, events, ResetTo(base));
  }

  lemma SameTable(n: Nat, m: Nat, m1: Nat, events: seq<Event>, e: Event)
    requires TableIs(n, m, events) && !e.FromInside? && !e.ResetTo? && m1 == m.(blocked := m1.blocked)
    ensures TableIs(n, m1, events + [e])
  {
    hide Locals, Spent, BaseOf, BlockedSince;
    HistoryNext(n, events, e);
  }

  /** After every run, the table lists the local endpoints that have sent since the last reset, in order, each with its
      public endpoint. */
  lemma {:induction false} RunTable(n: Nat, events: seq<Event>)
    requires Initial(n)
    ensures TableIs(n, Run(n, events), events)
  {
    hide TableIs, Outbound, BlockedSince, IsBlocked;
    if events == [] {
      EmptyTable(n);
    } else {
      var before, e := events[..|events| - 1], events[|events| - 1];
      assert before + [e] == events;
      RunTable(n, before);
      var m := Run(n, before);
      match e
      case FromInside(p) =>
        BlockedIff(n, before, p.src.port);
        SenderTable(n, m, before, p);
      case ResetTo(b) => ResetTable(n, m, before, b);
      case _ => SameTable(n, m, Step(m, e), before, e);
    }
  }

  lemma EmptyTable(n: Nat)
    requires Initial(n)
    ensures TableIs(n, n, [])
  {
  }

  /** Local endpoint `loc` has the public endpoint `pub`. */
  ghost predicate Assigned(n: Nat, events: seq<Event>, pub: Endpoint, loc: Endpoint) {
    exists i :: 0 <= i < |Locals(events)| && PublicOf(n, events, i) == pub && Locals(events)[i] == loc
  }

  lemma AssignedIff(n: Nat, events: seq<Event>, pub: Endpoint, loc: Endpoint)
    requires Initial(n)
    ensures Entry(pub, loc) in Run(n, events).table <==> Assigned(n, events, pub, loc)
  {
    hide Run, Locals, PublicOf;
    RunTable(n, events);
    var table := Run(n, events).table;
    if Entry(pub, loc) in table { var i :| 0 <= i < |table| && table[i] == Entry(pub, loc); }
    if Assigned(n, events, pub, loc) {
      var i :| 0 <= i < |Locals(events)| && PublicOf(n, events, i) == pub && Locals(events)[i] == loc;
      assert table[i] == Entry(pub, loc);
    }
  }

  /** What becomes of a packet from outside, in every run with at most 2^32 senders since the last reset: it is ignored
      if its destination is nobody's public endpoint, refused if it is that of an endpoint that has not sent to its
      source, and delivered to that endpoint if it has. */
  lemma InboundByHistory(n: Nat, events: seq<Event>, p: Packet)
    requires Initial(n) && |Locals(events)| <= COUNTER_LIMIT
    ensures Inbound(Run(n, events), p) == Ignore <==> forall loc :: !Assigned(n, events, p.dst, loc)
    ensures forall loc :: Assigned(n, events, p.dst, loc) ==>
              Inbound(Run(n, events), p)
              == if (loc, p.src) in Sent(events) then Forward(Packet(p.src, loc)) else Refuse(p.src)
  {
    hide Run, Locals, Assigned, Sent, LocalIndex;
    var m := Run(n, events);
    RunTable(n, events);
    forall loc ensures Assigned(n, events, p.dst, loc) <==> Entry(p.dst, loc) in m.table {
      AssignedIff(n, events, p.dst, loc);
    }
    var i := PublicIndex(m.table, p.dst);
    if i < |m.table| { assert Entry(p.dst, m.table[i].loc) in m.table; }
    forall loc | Assigned(n, events, p.dst, loc)
      ensures Inbound(m, p) == if (loc, p.src) in Sent(events) then Forward(Packet(p.src, loc)) else Refuse(p.src)
    {
      RunInboundIff(n, events, p, loc);
      var k :| 0 <= k < |m.table| && m.table[k] == Entry(p.dst, loc);
      assert i == k;
    }
  }

  /** What becomes of a packet from inside, in every run: refused if its port is blocked, and otherwise sent on from the
      public endpoint of its sender. */
  lemma OutboundByHistory(n: Nat, events: seq<Event>, p: Packet)
    requires Initial(n)
    ensures var out := Outbound(Run(n, events), p).1;
            if BlockedSince(events, p.src.port) then out == Refuse(p.src)
            else
              && out.Forward? && out.packet.dst == p.dst
              && Assigned(n, events + [FromInside(p)], out.packet.src, p.src)
  {
    hide Run, Locals, Assigned, Outbound, BlockedSince;
    RunOutboundIff(n, events, p);
    RunNext(n, events, FromInside(p));
    if !BlockedSince(events, p.src.port) {
      AssignedIff(n, events + [FromInside(p)], Outbound(Run(n, events), p).1.packet.src, p.src);
    }
  }

  lemma RunNext(n: Nat, events: seq<Event>, e: Event)
    ensures Run(n, events + [e]) == Step(Run(n, events), e)
  {
    assert (events + [e])[..|events|] == events;
  }
}
