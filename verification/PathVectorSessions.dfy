/** Sessions of the path-vector network come up: from every reachable state the two ends of a link can complete the
    handshake, and a machine that is down sends a SYN at fixed intervals. */
module PathVectorSessions {
  import opened PathVector
  import opened PathVectorNetwork

  predicate Has(n: Net, e: End) { e.machine < |n.machines| && e.iface < |n.machines[e.machine].ifaces| }

  function At(n: Net, e: End): Iface
    requires Has(n, e)
  {
    n.machines[e.machine].ifaces[e.iface]
  }

  // ---------- an end that counts on a SYN-ACK has sent its SYN ----------

  ghost predicate SynInv(n: Net) {
    forall e :: Has(n, e) && At(n, e).synSent ==> Packet(e, Syn) in n.sent
  }

  lemma StepSyn(m: Machine, e: Event, i: nat)
    requires i < |m.ifaces|
    ensures |Step(m, e).0.ifaces| == |m.ifaces|
    ensures Step(m, e).0.ifaces[i].synSent ==> m.ifaces[i].synSent || Send(i, Syn) in Step(m, e).1
  {
    var f := m.ifaces[i];
    if e == TimerTick(i) {
      var out := Tick(f).1;
      assert Tick(f).0.synSent ==> f.synSent || (|out| > 0 && out[0] == Syn);
    } else if e == StartConnection(i) {
      var out := Start(f).1;
      assert Start(f).0.synSent ==> f.synSent || (|out| > 0 && out[0] == Syn);
    }
  }

  lemma SynStep(c: Config, n: Net, k: nat, e: Event)
    requires SynInv(n) && Enabled(c, n, k, e)
    ensures SynInv(NetStep(c, n, k, e))
  {
    hide Step;
    var n1 := NetStep(c, n, k, e);
    forall x | Has(n1, x) && At(n1, x).synSent ensures Packet(x, Syn) in n1.sent {
      if x.machine == k {
        StepMachine(n.machines[k], e);
        StepSyn(n.machines[k], e, x.iface);
        assert x == End(k, x.iface);
        assert Has(n, x);
      } else {
        assert Has(n, x);
      }
    }
  }

  lemma StepMachine(m: Machine, e: Event)
    ensures |Step(m, e).0.ifaces| == |m.ifaces|
  {
  }

  lemma {:induction false} RunSyn(c: Config, assets: seq<seq<Prefix>>, ns: seq<Net>, es: seq<(nat, Event)>, j: nat)
    requires Run(c, assets, ns, es) && j < |ns|
    ensures SynInv(ns[j])
  {
    hide NetStep, Enabled;
    if j == 0 {
      forall e | Has(ns[0], e) ensures !At(ns[0], e).synSent {
        assert InitMachine(ns[0].machines[e.machine], c.asns[e.machine], assets[e.machine]);
      }
    } else {
      RunSyn(c, assets, ns, es, j - 1);
      SynStep(c, ns[j - 1], es[j - 1].0, es[j - 1].1);
    }
  }

  // ---------- the handshake ----------

  /** The events `es`, each enabled at its turn, lead from `n` to `n'`. */
  ghost predicate Leads(c: Config, n: Net, es: seq<(nat, Event)>, n': Net) {
    if es == [] then n' == n
    else
      var before, last := es[..|es| - 1], es[|es| - 1];
      exists m :: Leads(c, n, before, m) && LastStep(c, m, last, n')
  }

  ghost predicate LastStep(c: Config, m: Net, e: (nat, Event), n': Net) {
    Enabled(c, m, e.0, e.1) && n' == NetStep(c, m, e.0, e.1)
  }

  lemma LeadsOn(c: Config, n: Net, es: seq<(nat, Event)>, m: Net, k: nat, e: Event)
    requires Leads(c, n, es, m) && Enabled(c, m, k, e)
    ensures Leads(c, n, es + [(k, e)], NetStep(c, m, k, e))
  {
    hide NetStep, Enabled;
    assert (es + [(k, e)])[..|es|] == es;
    assert LastStep(c, m, (k, e), NetStep(c, m, k, e));
  }

  /** End `x` goes from `f` to `g`, sends `out`, and every other end stays as it is. */
  ghost predicate Changes(n: Net, n1: Net, x: End, g: Iface, out: seq<Frame>) {
    && n.sent <= n1.sent && (forall j :: 0 <= j < |out| ==> Packet(x, out[j]) in n1.sent)
    && (forall e :: Has(n, e) ==> Has(n1, e) && At(n1, e) == if e == x then g else At(n, e))
  }

  lemma Delivered(c: Config, n: Net, x: End, frame: Frame)
    requires Has(n, x) && At(n, x).state != Idle && !frame.Update?
    requires x in c.links && Packet(c.links[x], frame) in n.sent
    ensures var e, r := Deliver(x.iface, frame), Receive(At(n, x), frame);
            Enabled(c, n, x.machine, e) && Changes(n, NetStep(c, n, x.machine, e), x, r.0, r.1)
  {
    var e, r := Deliver(x.iface, frame), Receive(At(n, x), frame);
    assert x == End(x.machine, x.iface);
    var n1 := NetStep(c, n, x.machine, e);
    assert Step(n.machines[x.machine], e).1 == Replies(x.iface, r.1);
    hide Receive, Step;
    Replied(n, n1, x, r.1);
  }

  lemma Started(c: Config, n: Net, x: End)
    requires Has(n, x)
    ensures var e, r := StartConnection(x.iface), Start(At(n, x));
            Enabled(c, n, x.machine, e) && Changes(n, NetStep(c, n, x.machine, e), x, r.0, r.1)
  {
    var e, r := StartConnection(x.iface), Start(At(n, x));
    var n1 := NetStep(c, n, x.machine, e);
    assert Step(n.machines[x.machine], e).1 == Replies(x.iface, r.1);
    hide Start, Step;
    Replied(n, n1, x, r.1);
  }

  lemma Replied(n: Net, n1: Net, x: End, out: seq<Frame>)
    requires n1.sent == n.sent + set s | s in Replies(x.iface, out) :: Packet(End(x.machine, s.iface), s.frame)
    ensures forall j :: 0 <= j < |out| ==> Packet(x, out[j]) in n1.sent
  {
    forall j | 0 <= j < |out| ensures Packet(x, out[j]) in n1.sent {
      assert Send(x.iface, out[j]) in Replies(x.iface, out);
      assert x == End(x.machine, x.iface);
    }
  }

  /** The two ends of a link, neither of which has an open session. */
  ghost predicate BothDown(c: Config, n: Net, a: End) {
    && a in c.links && c.links[a] in c.links && c.links[c.links[a]] == a && c.links[a] != a
    && Has(n, a) && Has(n, c.links[a]) && IfaceInv(At(n, a)) && IfaceInv(At(n, c.links[a]))
    && !Opened(At(n, a)) && !Opened(At(n, c.links[a]))
  }

  /** Both ends have sent a SYN and wait for the other. */
  ghost predicate BothConnecting(c: Config, n: Net, a: End) {
    && BothDown(c, n, a) && Handshaking(At(n, a)) && Handshaking(At(n, c.links[a]))
    && Packet(a, Syn) in n.sent && Packet(c.links[a], Syn) in n.sent
  }

  lemma Connecting(c: Config, n: Net, a: End) returns (es: seq<(nat, Event)>, n': Net)
    requires BothDown(c, n, a) && SynInv(n)
    ensures Leads(c, n, es, n') && BothConnecting(c, n', a)
  {
    hide NetStep, Leads, Enabled;
    var b := c.links[a];
    var f, g := Start(At(n, a)), Start(At(n, b));
    Started(c, n, a);
    var e1 := [(a.machine, StartConnection(a.iface))];
    var n1 := NetStep(c, n, a.machine, StartConnection(a.iface));
    Started(c, n1, b);
    es, n' := e1 + [(b.machine, StartConnection(b.iface))], NetStep(c, n1, b.machine, StartConnection(b.iface));
    LeadsNowhere(c, n);
    LeadsOn(c, n, [], n, a.machine, StartConnection(a.iface));
    assert [] + e1 == e1;
    LeadsOn(c, n, e1, n1, b.machine, StartConnection(b.iface));
    assert Handshaking(f.0) && Handshaking(g.0);
    assert f.1 == [Syn] || At(n, a).synSent;
    assert f.1 == [Syn] ==> f.1[0] == Syn;
    assert g.1 == [Syn] || At(n, b).synSent;
    assert g.1 == [Syn] ==> g.1[0] == Syn;
  }

  lemma LeadsNowhere(c: Config, n: Net)
    ensures Leads(c, n, [], n)
  {
  }

  /** One frame of the handshake: `x` takes it, and the events so far are one more. */
  lemma Exchange(c: Config, n: Net, es: seq<(nat, Event)>, m: Net, x: End, frame: Frame)
    returns (es1: seq<(nat, Event)>, m1: Net)
    requires Leads(c, n, es, m) && Has(m, x) && At(m, x).state != Idle && !frame.Update?
    requires x in c.links && Packet(c.links[x], frame) in m.sent
    ensures Leads(c, n, es1, m1) && Changes(m, m1, x, Receive(At(m, x), frame).0, Receive(At(m, x), frame).1)
  {
    hide NetStep, Leads, Enabled, Changes, Receive;
    Delivered(c, m, x, frame);
    LeadsOn(c, n, es, m, x.machine, Deliver(x.iface, frame));
    es1, m1 := es + [(x.machine, Deliver(x.iface, frame))], NetStep(c, m, x.machine, Deliver(x.iface, frame));
  }

  /** From any state in which both ends of a link are down, the handshake can be completed: both sessions are then
      established, with a full hold timer. */
  lemma HandshakeCompletes(c: Config, n: Net, a: End) returns (es: seq<(nat, Event)>, n': Net)
    requires BothDown(c, n, a) && SynInv(n)
    ensures Leads(c, n, es, n') && Has(n', a) && Has(n', c.links[a])
    ensures At(n', a).state == Established == At(n', c.links[a]).state
    ensures At(n', a).ht == MAX_HT == At(n', c.links[a]).ht
  {
    hide Leads;
    var b := c.links[a];
    es, n' := Connecting(c, n, a);
    var f, g := At(n', a), At(n', b);
    es, n' := Exchange(c, n, es, n', b, Syn);
    assert Packet(b, Receive(g, Syn).1[0]) in n'.sent;
    es, n' := Exchange(c, n, es, n', a, SynAck);
    assert Packet(a, Receive(f, SynAck).1[0]) in n'.sent && Packet(a, Receive(f, SynAck).1[1]) in n'.sent;
    g := At(n', b);
    es, n' := Exchange(c, n, es, n', b, Ack);
    assert Packet(b, Receive(g, Ack).1[0]) in n'.sent;
    g := At(n', b);
    es, n' := Exchange(c, n, es, n', b, Open);
    assert Packet(b, Receive(g, Open).1[0]) in n'.sent;
    f := At(n', a);
    es, n' := Exchange(c, n, es, n', a, Open);
    assert Packet(a, Receive(f, Open).1[0]) in n'.sent;
    es, n' := Exchange(c, n, es, n', a, Keepalive);
    es, n' := Exchange(c, n, es, n', b, Keepalive);
  }

  /** In every state of every run, two linked ends without a session can come to have one. */
  lemma SessionsCanOpen(c: Config, assets: seq<seq<Prefix>>, ns: seq<Net>, es: seq<(nat, Event)>, j: nat, a: End)
    returns (more: seq<(nat, Event)>, n': Net)
    requires Run(c, assets, ns, es) && j < |ns| && a in c.links && c.links[a] != a
    requires Has(ns[j], a) && Has(ns[j], c.links[a]) && !Opened(At(ns[j], a)) && !Opened(At(ns[j], c.links[a]))
    ensures Leads(c, ns[j], more, n')
    ensures IsUp(n', a.machine, a.iface) && IsUp(n', c.links[a].machine, c.links[a].iface)
  {
    hide Leads, Init, NetStep, MachineInv, SentInv, SessionInv, SynInv;
    RunInv(c, assets, ns, es, j);
    RunSyn(c, assets, ns, es, j);
    SessionsInOrder(c, ns[j], a.machine, a.iface);
    SessionsInOrder(c, ns[j], c.links[a].machine, c.links[a].iface);
    more, n' := HandshakeCompletes(c, ns[j], a);
  }

  // ---------- connection attempts ----------

  const PERIOD: nat := MAX_RTO + MAX_CRT

  /** How many ticks until the next SYN of an end that waits for its neighbour. */
  function UntilSyn(f: Iface): nat {
    if f.state == Active then f.crt else if f.rto <= f.crt then f.rto + MAX_CRT else f.crt
  }

  lemma OneTick(f: Iface)
    requires IfaceInv(f) && Handshaking(f)
    ensures 0 < UntilSyn(f) <= PERIOD
    ensures IfaceInv(Tick(f).0) && Handshaking(Tick(f).0)
    ensures Tick(f).1 == if UntilSyn(f) == 1 then [Syn] else []
    ensures UntilSyn(Tick(f).0) == if UntilSyn(f) == 1 then PERIOD else UntilSyn(f) - 1
  {
  }

  function Ticked(f: Iface, n: nat): Iface { if n == 0 then f else Tick(Ticked(f, n - 1)).0 }

  /** The ticks until the next SYN, `n` ticks after there were `u` of them. */
  function Phase(u: nat, n: nat): int
    requires 0 < u <= PERIOD
  {
    PERIOD - (n + PERIOD - u) % PERIOD
  }

  lemma PhaseNext(u: nat, n: nat)
    requires 0 < u <= PERIOD
    ensures Phase(u, n + 1) == if Phase(u, n) == 1 then PERIOD else Phase(u, n) - 1
  {
    NextRemainder(n + PERIOD - u);
  }

  lemma PhaseOneIff(u: nat, n: nat)
    requires 0 < u <= PERIOD
    ensures Phase(u, n) == 1 <==> n + 1 >= u && (n + 1 - u) % PERIOD == 0
  {
    NextRemainder(n + PERIOD - u);
    if n + 1 >= u { WholePeriod(n + 1 - u); }
  }

  lemma PhaseStart(u: nat)
    requires 0 < u <= PERIOD
    ensures Phase(u, 0) == u
  {
  }

  lemma NextRemainder(x: nat)
    ensures (x + 1) % PERIOD == if x % PERIOD == PERIOD - 1 then 0 else x % PERIOD + 1
  {
  }

  lemma WholePeriod(x: nat)
    ensures (x + PERIOD) % PERIOD == x % PERIOD
  {
  }

  /** With the neighbour silent, an end that is down sends a SYN at the end of its current attempt, every 61 ticks after
      that, and nothing else. */
  lemma {:induction false} SynAgainIff(f: Iface, n: nat)
    requires IfaceInv(f) && Handshaking(f)
    ensures IfaceInv(Ticked(f, n)) && Handshaking(Ticked(f, n))
    ensures 0 < UntilSyn(f) <= PERIOD && UntilSyn(Ticked(f, n)) == Phase(UntilSyn(f), n)
    ensures Tick(Ticked(f, n)).1 == if n + 1 >= UntilSyn(f) && (n + 1 - UntilSyn(f)) % PERIOD == 0 then [Syn] else []
  {
    hide IfaceInv, Handshaking, Tick, UntilSyn, Phase;
    OneTick(f);
    PhaseStart(UntilSyn(f));
    PhaseOneIff(UntilSyn(f), n);
    if n > 0 {
      SynAgainIff(f, n - 1);
      OneTick(Ticked(f, n - 1));
      PhaseNext(UntilSyn(f), n - 1);
    }
    OneTick(Ticked(f, n));
  }

  // ---------- staying up ----------

  /** The ticks of interface `i` since the last KEEPALIVE or UPDATE on it, or since the start. */
  function SinceHeard(es: seq<Event>, i: nat): nat {
    if es == [] then 0
    else
      var e := es[|es| - 1];
      if e.Deliver? && e.iface == i && (e.frame == Keepalive || e.frame.Update?) then 0
      else SinceHeard(es[..|es| - 1], i) + if e == TimerTick(i) then 1 else 0
  }

  /** An established session is only ever touched by its own ticks, which run its hold timer down, and by a KEEPALIVE or
      an UPDATE, which fills it up. */
  lemma UpStep(m: Machine, e: Event, i: nat)
    requires i < |m.ifaces| && m.ifaces[i].state == Established && m.ifaces[i].ht > 0
    ensures |Step(m, e).0.ifaces| == |m.ifaces|
    ensures var f, g := m.ifaces[i], Step(m, e).0.ifaces[i];
            if e.Deliver? && e.iface == i && (e.frame == Keepalive || e.frame.Update?) then g == f.(ht := MAX_HT)
            else if e == TimerTick(i) then f.ht > 1 ==> g == f.(ht := f.ht - 1)
            else g == f
  {
    hide HandleUpdate, Exportable, Forget, Reprioritised;
  }

  /** Whatever else happens, a session whose neighbour is heard at least once in every 240 ticks stays up, with what is
      left of its hold timer since it was last heard. */
  lemma {:induction false} StaysUp(m: Machine, es: seq<Event>, i: nat)
    requires i < |m.ifaces| && m.ifaces[i].state == Established && m.ifaces[i].ht == MAX_HT
    requires forall n :: 0 <= n <= |es| ==> SinceHeard(es[..n], i) < MAX_HT
    ensures |RunMachine(m, es).ifaces| == |m.ifaces|
    ensures RunMachine(m, es).ifaces[i] == m.ifaces[i].(ht := MAX_HT - SinceHeard(es, i))
    decreases |es|
  {
    hide Step;
    assert es[..|es|] == es;
    if es != [] {
      var before := es[..|es| - 1];
      forall n | 0 <= n <= |before| ensures SinceHeard(before[..n], i) < MAX_HT { assert before[..n] == es[..n]; }
      StaysUp(m, before, i);
      UpStep(RunMachine(m, before), es[|es| - 1], i);
    }
  }
}
