/** One autonomous system of the path-vector protocol in computer-networks/PA3/user/sm.cpp: its
    per-interface session machines, its route table, and what each event makes it do. */
module PathVector {

  const MAX_RTO: nat := 30
  const MAX_CRT: nat := 31
  const MAX_HT: nat := 240

  datatype Prefix = Prefix(ip: nat, mask: nat)

  /** A route as it travels in an UPDATE message. */
  datatype Route = Route(ases: seq<nat>, dest: Prefix)

  datatype Relation = Peer | Provider | Customer | MyAsset

  /** `hop_by_hop_path` */
  datatype Path = Path(route: Route, startIf: nat, advertiser: Relation, priority: int)

  datatype State = Idle | Connect | OpenSent | OpenConfirm | Established | Active

  /** `iface_state` */
  datatype Iface = Iface(state: State, rto: nat, ht: nat, crt: nat, synSent: bool, synAckSent: bool, relation: Relation)

  datatype Machine = Machine(asn: nat, ifaces: seq<Iface>, paths: seq<Path>)

  datatype Frame = Syn | SynAck | Ack | Open | Keepalive | Update(withdrawn: seq<Prefix>, routes: seq<Route>) | Invalid

  /** A frame leaving on an interface. */
  datatype Send = Send(iface: nat, frame: Frame)

  // ---------- sessions ----------

  predicate Handshaking(f: Iface) { f.state == Connect || f.state == Active }

  predicate Opened(f: Iface) { f.state == OpenSent || f.state == OpenConfirm || f.state == Established }

  function EnterOpenSent(f: Iface): Iface {
    f.(state := OpenSent, rto := MAX_RTO, crt := MAX_CRT, ht := MAX_HT, synSent := false, synAckSent := false)
  }

  /** `processFrame`, for everything but the contents of an UPDATE: the new session state and the replies. */
  function Receive(f: Iface, frame: Frame): (Iface, seq<Frame>) {
    match frame
    case Syn => if Handshaking(f) then (f.(synAckSent := true, rto := MAX_RTO), [SynAck]) else (f, [])
    case Ack => if Handshaking(f) && f.synAckSent then (EnterOpenSent(f), [Open]) else (f, [])
    case SynAck => if Handshaking(f) && f.synSent then (EnterOpenSent(f), [Ack, Open]) else (f, [])
    case Keepalive =>
      if f.state == OpenConfirm || f.state == Established then (f.(state := Established, ht := MAX_HT), []) else (f, [])
    case Update(_, _) => if f.state == Established then (f.(ht := MAX_HT), []) else (f, [])
    case Open => if f.state == OpenSent then (f.(state := OpenConfirm, ht := MAX_HT), [Keepalive]) else (f, [])
    case Invalid => (f, [])
  }

  /** First part of a tick of `manage_time`: a session whose hold timer runs out starts over. */
  function TickHold(f: Iface): (Iface, seq<Frame>) {
    if !Opened(f) then (f, [])
    else
      var ht := if f.ht > 0 then f.ht - 1 else 0;
      if ht == 0 then (f.(crt := MAX_CRT, rto := MAX_RTO, ht := MAX_HT, state := Connect, synSent := true), [Syn])
      else (f.(ht := ht), [])
  }

  /** Second part: connection attempts time out and are retried. */
  function TickConnect(f: Iface): (Iface, seq<Frame>) {
    if f.state == Connect then
      var rto := if f.rto > 0 then f.rto - 1 else 0;
      if rto == 0 then (f.(rto := 0, crt := MAX_CRT, state := Active), [])
      else
        var crt := if f.crt > 0 then f.crt - 1 else 0;
        if crt == 0 then (f.(crt := MAX_CRT, rto := MAX_RTO, synSent := true), [Syn])
        else (f.(rto := rto, crt := crt), [])
    else if f.state == Active then
      var crt := if f.crt > 0 then f.crt - 1 else 0;
      if crt == 0 then (f.(crt := MAX_CRT, rto := MAX_RTO, state := Connect, synSent := true), [Syn])
      else (f.(crt := crt), [])
    else (f, [])
  }

  /** One pass of the `manage_time` loop over one interface. */
  function Tick(f: Iface): (Iface, seq<Frame>) {
    var (g, out1) := TickHold(f);
    var (h, out2) := TickConnect(g);
    (h, out1 + out2)
  }

  /** `start_connection` */
  function Start(f: Iface): (Iface, seq<Frame>) {
    if f.state == Idle then (f.(state := Connect, rto := MAX_RTO, crt := MAX_CRT, synSent := true), [Syn]) else (f, [])
  }

  /** Handshake flags and running timers agree with the session state. */
  predicate IfaceInv(f: Iface) {
    match f.state
    case Idle => !f.synSent && !f.synAckSent
    case Connect => f.synSent && 0 < f.rto <= MAX_RTO && 0 < f.crt <= MAX_CRT
    case Active => f.synSent && f.rto <= MAX_RTO && 0 < f.crt <= MAX_CRT
    case _ => !f.synSent && !f.synAckSent && 0 < f.ht <= MAX_HT && f.rto == MAX_RTO && f.crt == MAX_CRT
  }

  // ---------- the route table ----------

  /** The AS a route claims to end at; `ases.back()` is only asked of nonempty paths. */
  function Origin(ases: seq<nat>): nat { if ases == [] then 0 else ases[|ases| - 1] }

  /** `detect_loop` */
  predicate HasLoop(asn: nat, r: Route) { asn in r.ases }

  /** `detect_thief`: the table already knows another origin for the same prefix. */
  predicate Hijacked(paths: seq<Path>, r: Route) {
    exists i :: 0 <= i < |paths| && paths[i].route.dest == r.dest && Origin(paths[i].route.ases) != Origin(r.ases)
  }

  /** `is_in_archive` */
  predicate Archived(paths: seq<Path>, r: Route) {
    exists i :: 0 <= i < |paths| && paths[i].route == r
  }

  /** `get_if_priority` */
  function PriorityOf(relation: Relation): int {
    match relation
    case Customer => 100
    case Peer => 90
    case Provider => 80
    case MyAsset => -1
  }

  function Prepend(asn: nat, r: Route): Route { r.(ases := [asn] + r.ases) }

  /** What `handle_advertisement` does with one route arriving on interface `i`. */
  function Learn(asn: nat, paths: seq<Path>, i: nat, relation: Relation, r: Route): seq<Path> {
    if HasLoop(asn, r) || Hijacked(paths, r) || Archived(paths, Prepend(asn, r)) then paths
    else paths + [Path(Prepend(asn, r), i, relation, PriorityOf(relation))]
  }

  function LearnAll(asn: nat, paths: seq<Path>, i: nat, relation: Relation, rs: seq<Route>): seq<Path>
    decreases |rs|
  {
    if rs == [] then paths else LearnAll(asn, Learn(asn, paths, i, relation, rs[0]), i, relation, rs[1..])
  }

  /** `empty_trash_path`: drop the paths to this address, whatever their nonzero mask. */
  function Forget(paths: seq<Path>, p: Prefix): seq<Path> {
    if paths == [] then []
    else
      var rest := Forget(paths[1..], p);
      if paths[0].route.dest.ip == p.ip && paths[0].route.dest.mask != 0 then rest else [paths[0]] + rest
  }

  function ForgetAll(paths: seq<Path>, ps: seq<Prefix>): seq<Path>
    decreases |ps|
  {
    if ps == [] then paths else ForgetAll(Forget(paths, ps[0]), ps[1..])
  }

  /** `get_admissible_routes` for interface `i`. */
  function Exportable(paths: seq<Path>, i: nat, relation: Relation): seq<Route> {
    if paths == [] then []
    else
      var p := paths[0];
      var send :=
        || p.startIf == i
        || (relation == Peer && p.advertiser != Peer)
        || relation == Customer
        || (relation == Provider && p.advertiser != Provider);
      (if send then [p.route] else []) + Exportable(paths[1..], i, relation)
  }

  // ---------- the machine ----------

  function Replies(i: nat, frames: seq<Frame>): set<Send> { set k | 0 <= k < |frames| :: Send(i, frames[k]) }

  predicate Up(m: Machine, i: nat) { i < |m.ifaces| && m.ifaces[i].state == Established }

  /** The same frame on every established interface. */
  function ToAllUp(m: Machine, frame: Frame): set<Send> {
    set j: nat | 0 <= j < |m.ifaces| && Up(m, j) :: Send(j, frame)
  }

  datatype Event =
    | Deliver(iface: nat, frame: Frame)
    | TimerTick(iface: nat)
    | StartConnection(iface: nat)
    | Advertise
    | Hijack(prefix: Prefix)
    | Withdraw(prefix: Prefix)
    | SetPriority(iface: nat, priority: int)

  /** The route table after an UPDATE on interface `i`. */
  function HandleUpdate(m: Machine, i: nat, withdrawn: seq<Prefix>, routes: seq<Route>): seq<Path>
    requires i < |m.ifaces|
  {
    LearnAll(m.asn, ForgetAll(m.paths, withdrawn), i, m.ifaces[i].relation, routes)
  }

  /** One atomic event: the machine afterwards and the frames it sends. */
  function Step(m: Machine, e: Event): (Machine, set<Send>) {
    match e
    case Deliver(i, frame) =>
      if i >= |m.ifaces| || m.ifaces[i].state == Idle then (m, {})
      else
        var (f, out) := Receive(m.ifaces[i], frame);
        var m1 := m.(ifaces := m.ifaces[i := f]);
        if frame.Update? && m.ifaces[i].state == Established then
          (m1.(paths := HandleUpdate(m, i, frame.withdrawn, frame.routes)),
           if frame.withdrawn == [] then {} else set j: nat | 0 <= j < |m.ifaces| && j != i :: Send(j, frame))
        else (m1, Replies(i, out))
    case TimerTick(i) =>
      if i >= |m.ifaces| then (m, {})
      else
        var (f, out) := Tick(m.ifaces[i]);
        (m.(ifaces := m.ifaces[i := f]), Replies(i, out))
    case StartConnection(i) =>
      if i >= |m.ifaces| then (m, {})
      else
        var (f, out) := Start(m.ifaces[i]);
        (m.(ifaces := m.ifaces[i := f]), Replies(i, out))
    case Advertise =>
      (m, set j: nat | 0 <= j < |m.ifaces| && Up(m, j) ::
            Send(j, Update([], Exportable(m.paths, j, m.ifaces[j].relation))))
    case Hijack(prefix) => (m, ToAllUp(m, Update([], [Route([m.asn], prefix)])))
    case Withdraw(prefix) => (m.(paths := Forget(m.paths, prefix)), ToAllUp(m, Update([prefix], [])))
    case SetPriority(i, priority) => (m.(paths := Reprioritised(m.paths, i, priority)), {})
  }

  /** `setting_priority` */
  function Reprioritised(paths: seq<Path>, i: nat, priority: int): seq<Path> {
    seq(|paths|, k requires 0 <= k < |paths| =>
      if paths[k].startIf == i then paths[k].(priority := priority) else paths[k])
  }

  // ---------- sessions keep their invariant ----------

  lemma ReceiveKeepsInv(f: Iface, frame: Frame)
    requires IfaceInv(f)
    ensures IfaceInv(Receive(f, frame).0)
  {
  }

  lemma TickKeepsInv(f: Iface)
    requires IfaceInv(f)
    ensures IfaceInv(Tick(f).0)
    ensures Opened(f) ==> (Opened(Tick(f).0) <==> f.ht > 1)
    ensures Opened(f) && f.ht > 1 ==> Tick(f).0 == f.(ht := f.ht - 1)
    ensures !Opened(f) ==> !Opened(Tick(f).0)
  {
  }

  /** The machine after the events `es`. */
  function RunMachine(m: Machine, es: seq<Event>): Machine {
    if es == [] then m else Step(RunMachine(m, es[..|es| - 1]), es[|es| - 1]).0
  }

  /** How many of the events are ticks of interface `i`. */
  function TicksOf(es: seq<Event>, i: nat): nat {
    if es == [] then 0 else TicksOf(es[..|es| - 1], i) + if es[|es| - 1] == TimerTick(i) then 1 else 0
  }

  /** The neighbour on interface `i` is silent: anything may happen but a frame from it. */
  predicate Silent(es: seq<Event>, i: nat) { forall k :: 0 <= k < |es| ==> !(es[k].Deliver? && es[k].iface == i) }

  /** What is left of session `f` after `ticks` ticks without a frame: all but the ticks, or nothing. */
  predicate Fades(f: Iface, g: Iface, ticks: nat) {
    if Opened(f) && ticks < f.ht then g == f.(ht := f.ht - ticks) else IfaceInv(g) && !Opened(g)
  }

  /** No event but a frame or a tick of its own touches an open session, and none opens one. */
  lemma SilentStep(m: Machine, e: Event, i: nat, f: Iface, ticks: nat)
    requires i < |m.ifaces| && !(e.Deliver? && e.iface == i) && IfaceInv(f) && Fades(f, m.ifaces[i], ticks)
    ensures |Step(m, e).0.ifaces| == |m.ifaces|
    ensures Fades(f, Step(m, e).0.ifaces[i], ticks + if e == TimerTick(i) then 1 else 0)
  {
    if e == TimerTick(i) {
      TickKeepsInv(m.ifaces[i]);
    } else {
      StartQuiet(m.ifaces[i]);
    }
  }

  lemma StartQuiet(f: Iface)
    ensures Opened(f) ==> Start(f).0 == f
    ensures IfaceInv(f) && !Opened(f) ==> IfaceInv(Start(f).0) && !Opened(Start(f).0)
  {
  }

  lemma {:induction false} SilentRun(m: Machine, es: seq<Event>, i: nat)
    requires i < |m.ifaces| && IfaceInv(m.ifaces[i]) && Silent(es, i)
    ensures |RunMachine(m, es).ifaces| == |m.ifaces| && Fades(m.ifaces[i], RunMachine(m, es).ifaces[i], TicksOf(es, i))
    decreases |es|
  {
    hide Step, Fades, IfaceInv;
    if es == [] {
      FadesNothing(m.ifaces[i]);
    } else {
      var before := es[..|es| - 1];
      SilentRun(m, before, i);
      SilentStep(RunMachine(m, before), es[|es| - 1], i, m.ifaces[i], TicksOf(before, i));
    }
  }

  lemma FadesNothing(f: Iface)
    requires IfaceInv(f)
    ensures Fades(f, f, 0)
  {
  }

  /** While the neighbour is silent, and whatever else the machine does, a session survives exactly the ticks left on
      its hold timer, which is at most MAX_HT of them. */
  lemma SilentNeighbourDropped(m: Machine, es: seq<Event>, i: nat)
    requires i < |m.ifaces| && IfaceInv(m.ifaces[i]) && Opened(m.ifaces[i]) && Silent(es, i)
    ensures |RunMachine(m, es).ifaces| == |m.ifaces|
    ensures Opened(RunMachine(m, es).ifaces[i]) <==> TicksOf(es, i) < m.ifaces[i].ht
    ensures TicksOf(es, i) >= MAX_HT ==> !Opened(RunMachine(m, es).ifaces[i])
  {
    hide Step, RunMachine, TicksOf;
    SilentRun(m, es, i);
  }

  /** A session that is down stays down until the neighbour is heard. */
  lemma StaysDown(m: Machine, es: seq<Event>, i: nat)
    requires i < |m.ifaces| && IfaceInv(m.ifaces[i]) && !Opened(m.ifaces[i]) && Silent(es, i)
    ensures |RunMachine(m, es).ifaces| == |m.ifaces| && !Opened(RunMachine(m, es).ifaces[i])
  {
    hide Step, RunMachine, TicksOf;
    SilentRun(m, es, i);
  }

  // ---------- what a table learns, forgets and passes on ----------

  /** A route that avoids this AS, and to whose prefix no stored path claims another origin. */
  predicate Acceptable(asn: nat, paths: seq<Path>, r: Route) {
    asn !in r.ases && forall p :: p in paths && p.route.dest == r.dest ==> Origin(p.route.ases) == Origin(r.ases)
  }

  predicate Stores(paths: seq<Path>, r: Route) { exists p :: p in paths && p.route == r }

  /** `p` is a path over this AS and one of the routes that arrived on interface `i`. */
  predicate LearntFrom(asn: nat, p: Path, i: nat, relation: Relation, rs: seq<Route>) {
    && (exists q :: 0 <= q < |rs| && asn !in rs[q].ases && p.route == Route([asn] + rs[q].ases, rs[q].dest))
    && p.startIf == i && p.advertiser == relation
    && p.priority == (if relation == Customer then 100 else if relation == Peer then 90
                      else if relation == Provider then 80 else -1)
  }

  lemma LearnOne(asn: nat, paths: seq<Path>, i: nat, relation: Relation, rs: seq<Route>, q: nat)
    requires q < |rs|
    ensures LearnAll(asn, paths, i, relation, rs[..q + 1])
            == Learn(asn, LearnAll(asn, paths, i, relation, rs[..q]), i, relation, rs[q])
    decreases q
  {
    hide Learn;
    if q > 0 {
      LearnOne(asn, Learn(asn, paths, i, relation, rs[0]), i, relation, rs[1..], q - 1);
      assert rs[..q + 1][1..] == rs[1..][..q] && rs[..q][1..] == rs[1..][..q - 1];
    }
  }

  /** Whatever arrives, every stored path stays where it was. */
  lemma {:induction false} LearnKeepsOld(asn: nat, paths: seq<Path>, i: nat, relation: Relation, rs: seq<Route>,
                                         q: nat, n: nat)
    requires q <= n <= |rs|
    ensures LearnAll(asn, paths, i, relation, rs[..q]) <= LearnAll(asn, paths, i, relation, rs[..n])
    decreases n
  {
    if q < n {
      LearnKeepsOld(asn, paths, i, relation, rs, q, n - 1);
      LearnOne(asn, paths, i, relation, rs, n - 1);
    }
  }

  /** A route that is acceptable at its turn is in the table afterwards, behind this AS. */
  lemma Learnt(asn: nat, paths: seq<Path>, i: nat, relation: Relation, rs: seq<Route>, q: nat)
    requires q < |rs| && Acceptable(asn, LearnAll(asn, paths, i, relation, rs[..q]), rs[q])
    ensures Stores(LearnAll(asn, paths, i, relation, rs), Route([asn] + rs[q].ases, rs[q].dest))
  {
    hide LearnAll;
    LearnOne(asn, paths, i, relation, rs, q);
    LearnKeepsOld(asn, paths, i, relation, rs, q + 1, |rs|);
    assert rs[..|rs|] == rs;
    var before, after := LearnAll(asn, paths, i, relation, rs[..q]), LearnAll(asn, paths, i, relation, rs[..q + 1]);
    assert forall j :: 0 <= j < |before| ==> before[j] in before;
    assert exists j :: 0 <= j < |after| && after[j].route == Route([asn] + rs[q].ases, rs[q].dest) by {
      assert after != before ==> after[|before|].route == Route([asn] + rs[q].ases, rs[q].dest);
    }
    var j :| 0 <= j < |after| && after[j].route == Route([asn] + rs[q].ases, rs[q].dest);
    assert LearnAll(asn, paths, i, relation, rs)[j] == after[j];
  }

  /** Nothing else is added. */
  lemma {:induction false} LearntOnly(asn: nat, paths: seq<Path>, i: nat, relation: Relation, rs: seq<Route>, j: nat)
    requires |paths| <= j < |LearnAll(asn, paths, i, relation, rs)|
    ensures LearntFrom(asn, LearnAll(asn, paths, i, relation, rs)[j], i, relation, rs)
    decreases |rs|
  {
    if rs != [] {
      var n := |rs| - 1;
      LearnOne(asn, paths, i, relation, rs, n);
      hide LearnAll;
      assert rs[..n + 1] == rs;
      var before := LearnAll(asn, paths, i, relation, rs[..n]);
      if j < |before| {
        LearntOnly(asn, paths, i, relation, rs[..n], j);
        var q :| && 0 <= q < n && asn !in rs[..n][q].ases
                 && before[j].route == Route([asn] + rs[..n][q].ases, rs[..n][q].dest);
        assert rs[q] == rs[..n][q];
      } else {
        assert asn !in rs[n].ases;
      }
    }
  }

  /** Routes that avoid this AS and agree with the table and with each other on the origin of every prefix are all
      learnt. */
  lemma AllLearnt(asn: nat, paths: seq<Path>, i: nat, relation: Relation, rs: seq<Route>, q: nat)
    requires q < |rs| && Acceptable(asn, paths, rs[q])
    requires forall x :: 0 <= x < q && rs[x].dest == rs[q].dest ==>
                           rs[x].ases != [] && Origin(rs[x].ases) == Origin(rs[q].ases)
    ensures Stores(LearnAll(asn, paths, i, relation, rs), Route([asn] + rs[q].ases, rs[q].dest))
  {
    var before := LearnAll(asn, paths, i, relation, rs[..q]);
    LearnKeepsOld(asn, paths, i, relation, rs, 0, q);
    assert paths <= before;
    hide LearnAll;
    forall p | p in before && p.route.dest == rs[q].dest ensures Origin(p.route.ases) == Origin(rs[q].ases) {
      var j :| 0 <= j < |before| && before[j] == p;
      if j < |paths| {
        assert p == paths[j];
      } else {
        LearntOnly(asn, paths, i, relation, rs[..q], j);
        var x :| && 0 <= x < |rs[..q]| && asn !in rs[..q][x].ases
                 && p.route == Route([asn] + rs[..q][x].ases, rs[..q][x].dest);
        assert rs[..q][x] == rs[x];
        assert rs[x].ases != [] && Origin(p.route.ases) == Origin(rs[x].ases);
      }
    }
    Learnt(asn, paths, i, relation, rs, q);
  }

  /** Withdrawing a prefix drops every path to its address that has a nonzero mask, and no other. */
  lemma {:induction false} ForgetIff(paths: seq<Path>, p: Prefix, x: Path)
    ensures multiset(Forget(paths, p))[x]
            == if x.route.dest.ip == p.ip && x.route.dest.mask != 0 then 0 else multiset(paths)[x]
  {
    if paths != [] {
      ForgetIff(paths[1..], p, x);
      assert paths == [paths[0]] + paths[1..];
    }
  }

  lemma {:induction false} ForgetAllIff(paths: seq<Path>, ps: seq<Prefix>, x: Path)
    ensures multiset(ForgetAll(paths, ps))[x]
            == if exists i :: 0 <= i < |ps| && x.route.dest.ip == ps[i].ip && x.route.dest.mask != 0 then 0
               else multiset(paths)[x]
    decreases |ps|
  {
    if ps != [] {
      ForgetIff(paths, ps[0], x);
      ForgetAllIff(Forget(paths, ps[0]), ps[1..], x);
    }
  }

  /** What is passed on to a neighbour: all to a customer, to a peer or a provider what did not come from another of its
      kind, and what came in on the same interface in any case. */
  predicate PassedOn(p: Path, i: nat, relation: Relation) {
    p.startIf == i || relation == Customer || (relation != MyAsset && p.advertiser != relation)
  }

  lemma {:induction false} ExportableNext(paths: seq<Path>, p: Path, i: nat, relation: Relation)
    ensures Exportable(paths + [p], i, relation)
            == Exportable(paths, i, relation) + if PassedOn(p, i, relation) then [p.route] else []
  {
    hide PassedOn, Exportable;
    ExportableFirst(paths, i, relation);
    ExportableFirst(paths + [p], i, relation);
    if paths == [] {
      ExportableFirst([p][1..], i, relation);
      assert [] + [p] == [p];
    } else {
      ExportableNext(paths[1..], p, i, relation);
      assert (paths + [p])[1..] == paths[1..] + [p];
    }
  }

  lemma ExportableFirst(paths: seq<Path>, i: nat, relation: Relation)
    ensures Exportable(paths, i, relation)
            == if paths == [] then []
               else (if PassedOn(paths[0], i, relation) then [paths[0].route] else [])
                    + Exportable(paths[1..], i, relation)
  {
  }

  lemma {:induction false} ExportableIff(paths: seq<Path>, i: nat, relation: Relation, r: Route)
    ensures r in Exportable(paths, i, relation) <==> exists p :: p in paths && PassedOn(p, i, relation) && p.route == r
  {
    hide PassedOn, Exportable;
    ExportableFirst(paths, i, relation);
    if paths != [] { ExportableIff(paths[1..], i, relation, r); }
  }

  // ---------- the code that works on the table ----------

  /** The route table of one machine, as the loops of sm.cpp read and extend it. */
  class Router {
    const asn: nat
    var paths: seq<Path>

    constructor (asn: nat, paths: seq<Path>)
      ensures this.asn == asn && this.paths == paths
    {
      this.asn, this.paths := asn, paths;
    }

    method DetectLoop(r: Route) returns (found: bool)
      ensures found == HasLoop(asn, r)
    {
      for i := 0 to |r.ases|
        invariant asn !in r.ases[..i]
      {
        if r.ases[i] == asn { return true; }
      }
      return false;
    }

    method DetectThief(r: Route) returns (found: bool)
      ensures found == Hijacked(paths, r)
    {
      for i := 0 to |paths|
        invariant !Hijacked(paths[..i], r)
      {
        if paths[i].route.dest == r.dest && Origin(paths[i].route.ases) != Origin(r.ases) { return true; }
      }
      return false;
    }

    /** Counts the matching hops of every stored path of the same length and prefix. */
    method IsInArchive(r: Route) returns (found: bool)
      ensures found == Archived(paths, r)
    {
      var matches := 0;
      for i := 0 to |paths|
        invariant matches == 0 && !Archived(paths[..i], r)
      {
        var p := paths[i].route;
        if r.dest != p.dest || |r.ases| != |p.ases| { continue; }
        for j := 0 to |r.ases|
          invariant 0 <= matches <= j
          invariant matches == j <==> r.ases[..j] == p.ases[..j]
        {
          if r.ases[j] == p.ases[j] { matches := matches + 1; }
        }
        if matches == |r.ases| {
          assert r == p;
          return true;
        }
        matches := 0;
      }
      return false;
    }

    /** `handle_advertisement`, once the message is decoded. */
    method HandleAdvertisement(i: nat, relation: Relation, rs: seq<Route>)
      modifies this`paths
      ensures paths == LearnAll(asn, old(paths), i, relation, rs) && old(paths) <= paths
      ensures forall q :: 0 <= q < |rs| && Acceptable(asn, LearnAll(asn, old(paths), i, relation, rs[..q]), rs[q]) ==>
        Stores(paths, Route([asn] + rs[q].ases, rs[q].dest))
      ensures forall j :: |old(paths)| <= j < |paths| ==> LearntFrom(asn, paths[j], i, relation, rs)
    {
      ghost var before := paths;
      LearnRoutes(i, relation, rs);
      LearnKeepsOld(asn, before, i, relation, rs, 0, |rs|);
      assert rs[..|rs|] == rs;
      forall q | 0 <= q < |rs| && Acceptable(asn, LearnAll(asn, before, i, relation, rs[..q]), rs[q])
        ensures Stores(paths, Route([asn] + rs[q].ases, rs[q].dest))
      {
        Learnt(asn, before, i, relation, rs, q);
      }
      forall j | |before| <= j < |paths| ensures LearntFrom(asn, paths[j], i, relation, rs) {
        LearntOnly(asn, before, i, relation, rs, j);
      }
    }

    method LearnRoutes(i: nat, relation: Relation, rs: seq<Route>)
      modifies this`paths
      ensures paths == LearnAll(asn, old(paths), i, relation, rs)
    {
      for k := 0 to |rs|
        invariant LearnAll(asn, paths, i, relation, rs[k..]) == LearnAll(asn, old(paths), i, relation, rs)
      {
        assert rs[k..][0] == rs[k] && rs[k..][1..] == rs[k + 1..];
        var skip := DetectLoop(rs[k]);
        if skip { continue; }
        skip := DetectThief(rs[k]);
        if skip { continue; }
        var r := Prepend(asn, rs[k]);
        skip := IsInArchive(r);
        if skip { continue; }
        paths := paths + [Path(r, i, relation, PriorityOf(relation))];
      }
    }

    /** `get_admissible_routes` */
    method GetAdmissibleRoutes(i: nat, relation: Relation) returns (admissible: seq<Route>)
      ensures admissible == Exportable(paths, i, relation)
      ensures forall r :: r in admissible <==> exists p :: p in paths && PassedOn(p, i, relation) && p.route == r
    {
      admissible := [];
      for k := 0 to |paths|
        invariant admissible == Exportable(paths[..k], i, relation)
      {
        var p := paths[k];
        ExportableNext(paths[..k], p, i, relation);
        assert paths[..k + 1] == paths[..k] + [p];
        if p.startIf == i {
          admissible := admissible + [p.route];
          continue;
        }
        match relation {
          case Peer => if p.advertiser != Peer { admissible := admissible + [p.route]; }
          case Customer => admissible := admissible + [p.route];
          case Provider => if p.advertiser != Provider { admissible := admissible + [p.route]; }
          case MyAsset =>
        }
      }
      assert paths[..|paths|] == paths;
      forall r ensures r in admissible <==> exists p :: p in paths && PassedOn(p, i, relation) && p.route == r {
        ExportableIff(paths, i, relation, r);
      }
    }

    /** `empty_trash_path` */
    method EmptyTrash(p: Prefix)
      modifies this`paths
      ensures paths == Forget(old(paths), p)
    {
      var item := 0;
      while item < |paths|
        invariant item <= |paths|
        invariant paths[..item] + Forget(paths[item..], p) == Forget(old(paths), p)
        decreases |paths| - item
      {
        ghost var rest := paths[item..];
        assert rest[1..] == paths[item + 1..];
        if paths[item].route.dest.ip == p.ip && paths[item].route.dest.mask != 0 {
          paths := paths[..item] + paths[item + 1..];
          assert paths[item..] == rest[1..];
        } else {
          assert paths[..item + 1] == paths[..item] + [rest[0]];
          item := item + 1;
        }
      }
      assert paths[..item] == paths;
    }
  }
}
