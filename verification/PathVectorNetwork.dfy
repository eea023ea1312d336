/** A network of the machines of `PathVector`, joined by links that may lose, repeat and reorder frames
    but not forge them. Every run keeps the route tables loop-free and consistent, and the sessions
    honest; compare sections 5.1.2, 8.2.2 and 9.1.2 of RFC 4271. */
module PathVectorNetwork {
  import opened Prelude
  import opened PathVector

  /** One end of a link: an interface of a machine. */
  datatype End = End(machine: nat, iface: nat)

  /** What never changes: the AS number of each machine, and the far end of each linked interface. */
  datatype Config = Config(asns: seq<nat>, links: map<End, End>)

  ghost predicate ValidConfig(c: Config) {
    forall e :: e in c.links ==> c.links[e] in c.links && c.links[c.links[e]] == e && e.machine < |c.asns|
  }

  datatype Packet = Packet(from: End, frame: Frame)

  /** The machines, every frame ever sent, and three facts of history: which AS has claimed which
      prefix, which ends have sent an OPEN, and which ends have accepted one. */
  datatype Net = Net(machines: seq<Machine>, sent: set<Packet>, claims: set<(nat, Prefix)>, openers: set<End>,
      accepted: set<End>)

  // ---------- steps ----------

  /** A frame can arrive at an interface only if the far end of its link sent it at some time. */
  ghost predicate Enabled(c: Config, n: Net, k: nat, e: Event) {
    && k < |n.machines|
    && (e.Deliver? ==> End(k, e.iface) in c.links && Packet(c.links[End(k, e.iface)], e.frame) in n.sent)
  }

  ghost function NetStep(c: Config, n: Net, k: nat, e: Event): Net
    requires Enabled(c, n, k, e)
  {
    var (m, out) := Step(n.machines[k], e);
    Net(n.machines[k := m],
        n.sent + set s | s in out :: Packet(End(k, s.iface), s.frame),
        if e.Hijack? then n.claims + {(m.asn, e.prefix)} else n.claims,
        n.openers + set s | s in out && s.frame == Open :: End(k, s.iface),
        if AcceptsOpen(n.machines[k], e) then n.accepted + {End(k, e.iface)} else n.accepted)
  }

  predicate AcceptsOpen(m: Machine, e: Event) {
    e.Deliver? && e.frame == Open && e.iface < |m.ifaces| && m.ifaces[e.iface].state == OpenSent
  }

  // ---------- what a path must be ----------

  ghost predicate Adjacent(c: Config, a: nat, b: nat) {
    exists e :: e in c.links && e.machine < |c.asns| && c.links[e].machine < |c.asns|
                && c.asns[e.machine] == a && c.asns[c.links[e].machine] == b
  }

  ghost predicate Hop(c: Config, ases: seq<nat>, j: int) {
    0 <= j < |ases| - 1 ==> Adjacent(c, ases[j], ases[j + 1])
  }

  /** A loop-free path of neighbouring ASes that starts at AS `asn`. */
  ghost predicate SimplePath(c: Config, asn: nat, ases: seq<nat>) {
    ases != [] && ases[0] == asn && Distinct(ases) && forall j :: Hop(c, ases, j)
  }

  ghost predicate GoodRoute(c: Config, claims: set<(nat, Prefix)>, asn: nat, r: Route) {
    SimplePath(c, asn, r.ases) && (Origin(r.ases), r.dest) in claims
  }

  /** A stored path also leaves through the interface it was learnt on. */
  ghost predicate GoodPath(c: Config, claims: set<(nat, Prefix)>, k: nat, p: Path)
    requires k < |c.asns|
  {
    && GoodRoute(c, claims, c.asns[k], p.route)
    && (|p.route.ases| > 1 ==>
          && End(k, p.startIf) in c.links
          && c.links[End(k, p.startIf)].machine < |c.asns|
          && p.route.ases[1] == c.asns[c.links[End(k, p.startIf)].machine])
  }

  /** No route is stored twice, and all paths to one prefix agree on its origin. */
  ghost predicate Consistent(paths: seq<Path>) {
    && (forall i, j :: 0 <= i < j < |paths| ==> paths[i].route != paths[j].route)
    && (forall i, j :: 0 <= i < j < |paths| && paths[i].route.dest == paths[j].route.dest ==>
          Origin(paths[i].route.ases) == Origin(paths[j].route.ases))
  }

  ghost predicate GoodFrame(c: Config, claims: set<(nat, Prefix)>, asn: nat, frame: Frame) {
    frame.Update? ==>
      && (frame.withdrawn != [] ==> frame.routes == [])
      && forall i :: 0 <= i < |frame.routes| ==> GoodRoute(c, claims, asn, frame.routes[i])
  }

  // ---------- the invariant ----------

  ghost predicate MachineInv(c: Config, claims: set<(nat, Prefix)>, k: nat, m: Machine)
    requires k < |c.asns|
  {
    && m.asn == c.asns[k]
    && (forall i :: 0 <= i < |m.ifaces| ==> IfaceInv(m.ifaces[i]))
    && TableInv(c, claims, k, m.paths)
  }

  ghost predicate TableInv(c: Config, claims: set<(nat, Prefix)>, k: nat, paths: seq<Path>)
    requires k < |c.asns|
  {
    && (forall i :: 0 <= i < |paths| ==> GoodPath(c, claims, k, paths[i]))
    && Consistent(paths)
  }

  ghost predicate SentInv(c: Config, n: Net) {
    forall p :: p in n.sent ==>
      && p.from.machine < |c.asns|
      && GoodFrame(c, n.claims, c.asns[p.from.machine], p.frame)
      && (p.frame == Open ==> p.from in n.openers)
      && (p.frame == Keepalive ==> p.from in n.accepted)
  }

  predicate IsUp(n: Net, k: nat, i: nat) { k < |n.machines| && Up(n.machines[k], i) }

  /** An end that accepted an OPEN was sent one; an established end had its own OPEN accepted. */
  ghost predicate SessionInv(c: Config, n: Net) {
    && (forall e :: e in n.accepted ==> e in c.links && c.links[e] in n.openers)
    && (forall k: nat, i: nat :: IsUp(n, k, i) ==> End(k, i) in c.links && c.links[End(k, i)] in n.accepted)
  }

  ghost predicate Inv(c: Config, n: Net) {
    && ValidConfig(c) && |n.machines| == |c.asns|
    && (forall k :: 0 <= k < |n.machines| ==> MachineInv(c, n.claims, k, n.machines[k]))
    && SentInv(c, n) && SessionInv(c, n)
  }

  // ---------- route tables ----------

  lemma LearnKeepsTable(c: Config, claims: set<(nat, Prefix)>, k: nat, paths: seq<Path>, i: nat, relation: Relation,
                        r: Route)
    requires k < |c.asns| && ValidConfig(c) && TableInv(c, claims, k, paths)
    requires End(k, i) in c.links && GoodRoute(c, claims, c.asns[c.links[End(k, i)].machine], r)
    ensures TableInv(c, claims, k, Learn(c.asns[k], paths, i, relation, r))
  {
    var asn := c.asns[k];
    if !(HasLoop(asn, r) || Hijacked(paths, r) || Archived(paths, Prepend(asn, r))) {
      PrependKeepsPath(c, End(k, i), r.ases);
      assert Origin(Prepend(asn, r).ases) == Origin(r.ases);
    }
  }

  /** A neighbour's path that avoids us becomes a path of ours. */
  lemma PrependKeepsPath(c: Config, e: End, ases: seq<nat>)
    requires ValidConfig(c) && e in c.links
    requires SimplePath(c, c.asns[c.links[e].machine], ases) && c.asns[e.machine] !in ases
    ensures SimplePath(c, c.asns[e.machine], [c.asns[e.machine]] + ases)
  {
    var p := [c.asns[e.machine]] + ases;
    forall j ensures Hop(c, p, j) {
      assert Hop(c, ases, j - 1);
      if j == 0 { assert Adjacent(c, p[0], p[1]); }
    }
  }

  lemma LearnAllKeepsTable(c: Config, claims: set<(nat, Prefix)>, k: nat, paths: seq<Path>, i: nat, relation: Relation,
                           rs: seq<Route>)
    requires k < |c.asns| && ValidConfig(c) && TableInv(c, claims, k, paths)
    requires End(k, i) in c.links
    requires forall j :: 0 <= j < |rs| ==> GoodRoute(c, claims, c.asns[c.links[End(k, i)].machine], rs[j])
    ensures TableInv(c, claims, k, LearnAll(c.asns[k], paths, i, relation, rs))
    decreases |rs|
  {
    if rs != [] {
      LearnKeepsTable(c, claims, k, paths, i, relation, rs[0]);
      LearnAllKeepsTable(c, claims, k, Learn(c.asns[k], paths, i, relation, rs[0]), i, relation, rs[1..]);
    }
  }

  lemma ForgetKeepsTable(c: Config, claims: set<(nat, Prefix)>, k: nat, paths: seq<Path>, p: Prefix)
    requires k < |c.asns| && TableInv(c, claims, k, paths)
    ensures TableInv(c, claims, k, Forget(paths, p))
  {
    hide GoodPath;
    var rest := Forget(paths, p);
    forall i | 0 <= i < |rest| ensures GoodPath(c, claims, k, rest[i]) { ForgetPicks(paths, p, i, i); }
    forall i, j | 0 <= i < j < |rest|
      ensures rest[i].route != rest[j].route
      ensures rest[i].route.dest == rest[j].route.dest ==> Origin(rest[i].route.ases) == Origin(rest[j].route.ases)
    {
      ForgetPicks(paths, p, i, j);
    }
  }

  predicate Picks(paths: seq<Path>, rest: seq<Path>, i: nat, j: nat, x: nat, y: nat) {
    i < |rest| && j < |rest| && x < |paths| && y < |paths| && rest[i] == paths[x] && rest[j] == paths[y]
  }

  /** Forgetting keeps the remaining paths, in order. */
  lemma {:induction false} ForgetPicks(paths: seq<Path>, p: Prefix, i: nat, j: nat)
    requires i <= j < |Forget(paths, p)|
    ensures exists x, y :: 0 <= x <= y < |paths| && (i < j ==> x < y) && Picks(paths, Forget(paths, p), i, j, x, y)
  {
    var rest := Forget(paths[1..], p);
    if Forget(paths, p) == rest {
      ForgetPicks(paths[1..], p, i, j);
      var x, y :| 0 <= x <= y < |paths[1..]| && (i < j ==> x < y) && Picks(paths[1..], rest, i, j, x, y);
      assert Picks(paths, rest, i, j, x + 1, y + 1);
    } else {
      assert Forget(paths, p) == [paths[0]] + rest;
      if j > 0 {
        var i' := if i == 0 then j - 1 else i - 1;
        ForgetPicks(paths[1..], p, i', j - 1);
        var x, y :| 0 <= x <= y < |paths[1..]| && (i' < j - 1 ==> x < y) && Picks(paths[1..], rest, i', j - 1, x, y);
        assert Picks(paths, Forget(paths, p), i, j, if i == 0 then 0 else x + 1, y + 1);
      } else {
        assert Picks(paths, Forget(paths, p), 0, 0, 0, 0);
      }
    }
  }

  lemma ForgetAllKeepsTable(c: Config, claims: set<(nat, Prefix)>, k: nat, paths: seq<Path>, ps: seq<Prefix>)
    requires k < |c.asns| && TableInv(c, claims, k, paths)
    ensures TableInv(c, claims, k, ForgetAll(paths, ps))
    decreases |ps|
  {
    if ps != [] {
      ForgetKeepsTable(c, claims, k, paths, ps[0]);
      ForgetAllKeepsTable(c, claims, k, Forget(paths, ps[0]), ps[1..]);
    }
  }

  lemma ExportableGood(c: Config, claims: set<(nat, Prefix)>, asn: nat, paths: seq<Path>, i: nat, relation: Relation)
    requires forall j :: 0 <= j < |paths| ==> GoodRoute(c, claims, asn, paths[j].route)
    ensures forall j :: 0 <= j < |Exportable(paths, i, relation)| ==>
            GoodRoute(c, claims, asn, Exportable(paths, i, relation)[j])
  {
    var rs := Exportable(paths, i, relation);
    forall j | 0 <= j < |rs| ensures GoodRoute(c, claims, asn, rs[j]) {
      ExportableIff(paths, i, relation, rs[j]);
    }
  }

  // ---------- one step ----------

  /** The table and the frames sent by one machine stay good in every event. */
  lemma MachineStepGood(c: Config, claims: set<(nat, Prefix)>, k: nat, m: Machine, e: Event)
    requires k < |c.asns| && ValidConfig(c) && MachineInv(c, claims, k, m)
    requires e.Deliver? ==>
      End(k, e.iface) in c.links && GoodFrame(c, claims, c.asns[c.links[End(k, e.iface)].machine], e.frame)
    requires e.Hijack? ==> (m.asn, e.prefix) in claims
    ensures MachineInv(c, claims, k, Step(m, e).0)
    ensures forall s :: s in Step(m, e).1 ==> GoodFrame(c, claims, m.asn, s.frame)
  {
    match e
    case Deliver(i, frame) =>
      if i < |m.ifaces| {
        ReceiveKeepsInv(m.ifaces[i], frame);
        if frame.Update? {
          ForgetAllKeepsTable(c, claims, k, m.paths, frame.withdrawn);
          LearnAllKeepsTable(c, claims, k, ForgetAll(m.paths, frame.withdrawn), i, m.ifaces[i].relation, frame.routes);
        }
      }
    case TimerTick(i) => if i < |m.ifaces| { TickKeepsInv(m.ifaces[i]); }
    case StartConnection(i) =>
    case Advertise =>
      forall j: nat | j < |m.ifaces|
        ensures GoodFrame(c, claims, m.asn, Update([], Exportable(m.paths, j, m.ifaces[j].relation)))
      {
        ExportableGood(c, claims, m.asn, m.paths, j, m.ifaces[j].relation);
      }
    case Hijack(prefix) => OwnRouteGood(c, claims, m.asn, prefix);
    case Withdraw(prefix) => ForgetKeepsTable(c, claims, k, m.paths, prefix);
    case SetPriority(i, priority) => ReprioritisedKeepsTable(c, claims, k, m.paths, i, priority);
  }

  lemma OwnRouteGood(c: Config, claims: set<(nat, Prefix)>, asn: nat, prefix: Prefix)
    requires (asn, prefix) in claims
    ensures GoodFrame(c, claims, asn, Update([], [Route([asn], prefix)]))
  {
    assert forall j :: Hop(c, [asn], j);
  }

  lemma ReprioritisedKeepsTable(c: Config, claims: set<(nat, Prefix)>, k: nat, paths: seq<Path>, i: nat, priority: int)
    requires k < |c.asns| && TableInv(c, claims, k, paths)
    ensures TableInv(c, claims, k, Reprioritised(paths, i, priority))
  {
    var q := Reprioritised(paths, i, priority);
    assert forall j :: 0 <= j < |paths| ==> q[j].route == paths[j].route && q[j].startIf == paths[j].startIf;
  }

  /** More claims make no path, and no frame, worse. */
  lemma ClaimsGrow(c: Config, n: Net, claims: set<(nat, Prefix)>)
    requires Inv(c, n) && n.claims <= claims
    ensures Inv(c, n.(claims := claims))
  {
    forall k | 0 <= k < |n.machines| ensures MachineInv(c, claims, k, n.machines[k]) {
      assert forall i :: 0 <= i < |n.machines[k].paths| ==> GoodPath(c, n.claims, k, n.machines[k].paths[i]);
    }
  }

  /** A KEEPALIVE is only ever sent in answer to an accepted OPEN, and only a KEEPALIVE establishes. */
  lemma StepSessions(m: Machine, e: Event)
    ensures |Step(m, e).0.ifaces| == |m.ifaces|
    ensures forall s :: s in Step(m, e).1 && s.frame == Keepalive ==> AcceptsOpen(m, e) && s.iface == e.iface
    ensures forall i :: 0 <= i < |m.ifaces| && Step(m, e).0.ifaces[i].state == Established ==>
              m.ifaces[i].state == Established || e == Deliver(i, Keepalive)
  {
  }

  lemma AcceptedStep(c: Config, n: Net, k: nat, e: Event)
    requires Inv(c, n) && Enabled(c, n, k, e)
    ensures var n1 := NetStep(c, n, k, e);
            forall x :: x in n1.accepted ==> x in c.links && c.links[x] in n1.openers
  {
    hide Step, MachineInv;
  }

  lemma EstablishedStep(c: Config, n: Net, k: nat, e: Event, k1: nat, i: nat)
    requires Inv(c, n) && Enabled(c, n, k, e) && k1 < |NetStep(c, n, k, e).machines|
    requires i < |NetStep(c, n, k, e).machines[k1].ifaces|
    requires NetStep(c, n, k, e).machines[k1].ifaces[i].state == Established
    ensures End(k1, i) in c.links && c.links[End(k1, i)] in NetStep(c, n, k, e).accepted
  {
    hide Step, MachineInv;
    StepSessions(n.machines[k], e);
    if k1 == k && e == Deliver(i, Keepalive) { assert Packet(c.links[End(k, i)], Keepalive) in n.sent; }
  }

  lemma SessionStep(c: Config, n: Net, k: nat, e: Event)
    requires Inv(c, n) && Enabled(c, n, k, e)
    ensures SessionInv(c, NetStep(c, n, k, e))
  {
    hide Step, Inv, NetStep;
    AcceptedStep(c, n, k, e);
    var n1 := NetStep(c, n, k, e);
    forall k1: nat, i: nat | IsUp(n1, k1, i)
      ensures End(k1, i) in c.links && c.links[End(k1, i)] in n1.accepted
    {
      EstablishedStep(c, n, k, e, k1, i);
    }
  }

  lemma SentStep(c: Config, n: Net, k: nat, e: Event, claims: set<(nat, Prefix)>)
    requires Inv(c, n) && Enabled(c, n, k, e)
    requires claims == NetStep(c, n, k, e).claims
    ensures SentInv(c, NetStep(c, n, k, e))
    ensures forall j :: 0 <= j < |n.machines| ==> MachineInv(c, claims, j, NetStep(c, n, k, e).machines[j])
  {
    var m := n.machines[k];
    ClaimsGrow(c, n, claims);
    var n0 := n.(claims := claims);
    assert MachineInv(c, n.claims, k, m);
    assert MachineInv(c, claims, k, n0.machines[k]);
    StepSessions(m, e);
    MachineStepGood(c, claims, k, m, e);
    hide Step, MachineInv, GoodFrame;
  }

  /** Every enabled step keeps the invariant. */
  lemma StepKeepsInv(c: Config, n: Net, k: nat, e: Event)
    requires Inv(c, n) && Enabled(c, n, k, e)
    ensures Inv(c, NetStep(c, n, k, e))
  {
    SessionStep(c, n, k, e);
    SentStep(c, n, k, e, NetStep(c, n, k, e).claims);
    hide Step, MachineInv, SentInv, SessionInv;
  }

  // ---------- runs ----------

  /** A machine before anything has happened: idle interfaces, and one path to each prefix it owns. */
  ghost predicate InitMachine(m: Machine, asn: nat, assets: seq<Prefix>) {
    && m.asn == asn && |m.paths| == |assets|
    && (forall i :: 0 <= i < |m.ifaces| ==>
          m.ifaces[i].state == Idle && !m.ifaces[i].synSent && !m.ifaces[i].synAckSent)
    && (forall i :: 0 <= i < |assets| ==> m.paths[i] == Path(Route([asn], assets[i]), 0, MyAsset, 0))
  }

  /** `initialize` on every machine; no machine lists one of its assets twice. */
  ghost predicate Init(c: Config, assets: seq<seq<Prefix>>, n: Net) {
    && ValidConfig(c) && |n.machines| == |c.asns| == |assets|
    && (forall k :: 0 <= k < |n.machines| ==> InitMachine(n.machines[k], c.asns[k], assets[k]))
    && (forall k, i, j :: 0 <= k < |assets| && 0 <= i < j < |assets[k]| ==> assets[k][i] != assets[k][j])
    && n.sent == {} && n.openers == {} && n.accepted == {}
    && (forall k, i :: 0 <= k < |assets| && 0 <= i < |assets[k]| ==> (c.asns[k], assets[k][i]) in n.claims)
  }

  /** The table that `initialize` sets up is free of duplicates if and only if no asset is listed twice. */
  lemma InitConsistentIff(m: Machine, asn: nat, assets: seq<Prefix>)
    requires InitMachine(m, asn, assets)
    ensures Consistent(m.paths) <==> forall i, j :: 0 <= i < j < |assets| ==> assets[i] != assets[j]
  {
    assert forall i, j :: 0 <= i < j < |assets| ==> (m.paths[i].route == m.paths[j].route <==> assets[i] == assets[j]);
  }

  lemma InitInv(c: Config, assets: seq<seq<Prefix>>, n: Net)
    requires Init(c, assets, n)
    ensures Inv(c, n)
  {
    forall k | 0 <= k < |n.machines| ensures MachineInv(c, n.claims, k, n.machines[k]) {
      var m := n.machines[k];
      assert InitMachine(m, c.asns[k], assets[k]);
      forall i | 0 <= i < |m.paths| ensures GoodPath(c, n.claims, k, m.paths[i]) {
        assert forall j :: Hop(c, m.paths[i].route.ases, j);
        assert (c.asns[k], assets[k][i]) in n.claims;
      }
    }
  }

  ghost predicate Run(c: Config, assets: seq<seq<Prefix>>, ns: seq<Net>, es: seq<(nat, Event)>) {
    && |ns| == |es| + 1 && Init(c, assets, ns[0])
    && forall j {:trigger es[j]} :: 0 <= j < |es| ==>
         Enabled(c, ns[j], es[j].0, es[j].1) && ns[j + 1] == NetStep(c, ns[j], es[j].0, es[j].1)
  }

  lemma {:induction false} RunInv(c: Config, assets: seq<seq<Prefix>>, ns: seq<Net>, es: seq<(nat, Event)>, j: nat)
    requires Run(c, assets, ns, es) && j < |ns|
    ensures Inv(c, ns[j])
  {
    if j == 0 {
      InitInv(c, assets, ns[0]);
    } else {
      RunInv(c, assets, ns, es, j - 1);
      StepKeepsInv(c, ns[j - 1], es[j - 1].0, es[j - 1].1);
    }
  }

  /** In every state of every run, every stored path is a simple path of neighbouring ASes from its
      holder, out of the interface it was learnt on, to an AS that has claimed its prefix; tables
      hold no route twice and never two origins for one prefix. */
  lemma TablesAlwaysSound(c: Config, assets: seq<seq<Prefix>>, ns: seq<Net>, es: seq<(nat, Event)>, j: nat, k: nat)
    requires Run(c, assets, ns, es) && j < |ns| && k < |ns[j].machines|
    ensures k < |c.asns| && ns[j].machines[k].asn == c.asns[k]
    ensures forall i :: 0 <= i < |ns[j].machines[k].paths| ==> GoodPath(c, ns[j].claims, k, ns[j].machines[k].paths[i])
    ensures Consistent(ns[j].machines[k].paths)
  {
    RunInv(c, assets, ns, es, j);
    assert MachineInv(c, ns[j].claims, k, ns[j].machines[k]);
  }

  /** Every advertised route ever sent is a simple path from its sender to a claimant of its prefix. */
  lemma AdvertisementsAlwaysSound(c: Config, assets: seq<seq<Prefix>>, ns: seq<Net>, es: seq<(nat, Event)>, j: nat,
                                  p: Packet, i: nat)
    requires Run(c, assets, ns, es) && j < |ns| && p in ns[j].sent && p.frame.Update? && i < |p.frame.routes|
    ensures p.from.machine < |c.asns|
    ensures GoodRoute(c, ns[j].claims, c.asns[p.from.machine], p.frame.routes[i])
  {
    RunInv(c, assets, ns, es, j);
  }

  /** An established session means the neighbour accepted an OPEN that this end had sent. */
  lemma EstablishedMeansAccepted(c: Config, assets: seq<seq<Prefix>>, ns: seq<Net>, es: seq<(nat, Event)>, j: nat,
                                 e: End)
    requires Run(c, assets, ns, es) && j < |ns|
    requires e.machine < |ns[j].machines| && e.iface < |ns[j].machines[e.machine].ifaces|
    requires ns[j].machines[e.machine].ifaces[e.iface].state == Established
    ensures e in c.links && c.links[e] in ns[j].accepted && e in ns[j].openers
  {
    RunInv(c, assets, ns, es, j);
    assert End(e.machine, e.iface) == e;
  }

  /** The ticks of interface `i` of machine `k` among the events from `a` up to `b`. */
  function NetTicks(es: seq<(nat, Event)>, a: nat, b: nat, k: nat, i: nat): nat
    requires a <= b <= |es|
  {
    if a == b then 0 else NetTicks(es, a, b - 1, k, i) + if es[b - 1] == (k, TimerTick(i)) then 1 else 0
  }

  /** From `a` up to `b` no frame reaches interface `i` of machine `k`; every machine may do anything else. */
  ghost predicate NetSilent(es: seq<(nat, Event)>, a: nat, b: nat, k: nat, i: nat) {
    forall x :: a <= x < b && x < |es| ==> !(es[x].0 == k && es[x].1.Deliver? && es[x].1.iface == i)
  }

  lemma {:induction false} NetFades(c: Config, assets: seq<seq<Prefix>>, ns: seq<Net>, es: seq<(nat, Event)>, a: nat,
                                    b: nat, k: nat, i: nat)
    requires Run(c, assets, ns, es) && a <= b < |ns| && NetSilent(es, a, b, k, i)
    requires k < |ns[a].machines| && i < |ns[a].machines[k].ifaces|
    ensures k < |ns[b].machines| && i < |ns[b].machines[k].ifaces| && IfaceInv(ns[a].machines[k].ifaces[i])
    ensures Fades(ns[a].machines[k].ifaces[i], ns[b].machines[k].ifaces[i], NetTicks(es, a, b, k, i))
    decreases b
  {
    hide Step, Fades, IfaceInv, Init, Inv;
    RunInv(c, assets, ns, es, a);
    SessionsInOrder(c, ns[a], k, i);
    var f := ns[a].machines[k].ifaces[i];
    if a == b {
      FadesNothing(f);
    } else {
      NetFades(c, assets, ns, es, a, b - 1, k, i);
      var n, who, e := ns[b - 1], es[b - 1].0, es[b - 1].1;
      assert ns[b - 1 + 1] == NetStep(c, n, who, e);
      SilentStep(n.machines[k], if who == k then e else Advertise, i, f, NetTicks(es, a, b - 1, k, i));
    }
  }

  lemma SessionsInOrder(c: Config, n: Net, k: nat, i: nat)
    requires Inv(c, n) && k < |n.machines| && i < |n.machines[k].ifaces|
    ensures IfaceInv(n.machines[k].ifaces[i])
  {
    assert MachineInv(c, n.claims, k, n.machines[k]);
  }

  /** In every run of the network, a session whose neighbour is not heard from survives exactly the ticks left on its
      hold timer, at most 240, whatever this and the other machines do. */
  lemma SilentNeighbourAlwaysDropped(c: Config, assets: seq<seq<Prefix>>, ns: seq<Net>, es: seq<(nat, Event)>, a: nat,
                                     b: nat, k: nat, i: nat)
    requires Run(c, assets, ns, es) && a <= b < |ns| && NetSilent(es, a, b, k, i)
    requires k < |ns[a].machines| && i < |ns[a].machines[k].ifaces| && Opened(ns[a].machines[k].ifaces[i])
    ensures k < |ns[b].machines| && i < |ns[b].machines[k].ifaces|
    ensures Opened(ns[b].machines[k].ifaces[i]) <==> NetTicks(es, a, b, k, i) < ns[a].machines[k].ifaces[i].ht <= MAX_HT
  {
    hide Step, Init, Inv, Run, NetSilent;
    NetFades(c, assets, ns, es, a, b, k, i);
  }

  ghost predicate Joined(c: Config, i: nat, j: nat) {
    exists e :: e in c.links && e.machine == i && c.links[e].machine == j
  }

  /** `ms` are distinct machines, each joined to the next, with the AS numbers `ases`. */
  ghost predicate MachinePath(c: Config, ms: seq<nat>, ases: seq<nat>) {
    && |ms| == |ases|
    && (forall i :: 0 <= i < |ms| ==> ms[i] < |c.asns| && c.asns[ms[i]] == ases[i])
    && (forall i, j :: 0 <= i < j < |ms| ==> ms[i] != ms[j])
    && (forall i, j :: 0 <= i < |ms| && j == i + 1 < |ms| ==> Joined(c, ms[i], ms[j]))
  }

  /** With distinct AS numbers, a simple path of ASes from machine `k` is a simple path of machines. */
  lemma {:induction false} PathOfMachines(c: Config, k: nat, ases: seq<nat>) returns (ms: seq<nat>)
    requires ValidConfig(c) && k < |c.asns| && SimplePath(c, c.asns[k], ases)
    requires forall x, y :: 0 <= x < y < |c.asns| ==> c.asns[x] != c.asns[y]
    ensures MachinePath(c, ms, ases) && ms[0] == k
    decreases |ases|
  {
    if |ases| == 1 { return [k]; }
    var n := |ases| - 1;
    var shorter := ases[..n];
    forall j ensures Hop(c, shorter, j) { assert Hop(c, ases, j); }
    var before := PathOfMachines(c, k, shorter);
    assert Hop(c, ases, n - 1);
    assert Adjacent(c, ases[n - 1], ases[n]);
    var e :| e in c.links && e.machine < |c.asns| && c.links[e].machine < |c.asns|
             && c.asns[e.machine] == ases[n - 1] && c.asns[c.links[e].machine] == ases[n];
    assert e.machine == before[n - 1];
    assert Joined(c, before[n - 1], c.links[e].machine);
    ms := before + [c.links[e].machine];
    assert forall i :: 0 <= i < n ==> c.asns[ms[i]] == ases[i];
  }
}
