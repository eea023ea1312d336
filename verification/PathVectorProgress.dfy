/** What the network of `PathVectorNetwork` achieves: routes travel from table to table, withdrawals undo them, sessions
    come up, and a machine that is down keeps asking. */
module PathVectorProgress {
  import opened PathVector
  import opened PathVectorNetwork

  // ---------- routes ----------

  /** A route delivered over an established session is in the receiver's table, behind its own AS, if it is acceptable
      at its turn; paths that the message does not withdraw stay. */
  lemma DeliveredRouteLearnt(c: Config, n: Net, k: nat, i: nat, withdrawn: seq<Prefix>, rs: seq<Route>, q: nat)
    requires Enabled(c, n, k, Deliver(i, Update(withdrawn, rs))) && IsUp(n, k, i) && q < |rs|
    requires var m := n.machines[k];
             var before := LearnAll(m.asn, ForgetAll(m.paths, withdrawn), i, m.ifaces[i].relation, rs[..q]);
             Acceptable(m.asn, before, rs[q])
    ensures var m, n1 := n.machines[k], NetStep(c, n, k, Deliver(i, Update(withdrawn, rs)));
            && |n1.machines| == |n.machines| && Stores(n1.machines[k].paths, Route([m.asn] + rs[q].ases, rs[q].dest))
            && ForgetAll(m.paths, withdrawn) <= n1.machines[k].paths
  {
    var m := n.machines[k];
    var kept := ForgetAll(m.paths, withdrawn);
    Learnt(m.asn, kept, i, m.ifaces[i].relation, rs, q);
    LearnKeepsOld(m.asn, kept, i, m.ifaces[i].relation, rs, 0, |rs|);
    assert rs[..|rs|] == rs;
    hide Learn, ForgetAll, Acceptable;
  }

  /** What `advertise` sends to the far end `b` of an established link. */
  function Advertisement(n: Net, a: End): Frame
    requires IsUp(n, a.machine, a.iface)
  {
    var m := n.machines[a.machine];
    Update([], Exportable(m.paths, a.iface, m.ifaces[a.iface].relation))
  }

  /** From one table to the next: a machine advertises, and the message arrives over a session that is up at both ends.
      Every path it may pass on, that avoids the receiver, and that contradicts no origin the receiver knows, is then
      in the receiver's table. */
  lemma NeighbourLearns(c: Config, n: Net, a: End, p: Path)
    requires Inv(c, n) && a in c.links
    requires IsUp(n, a.machine, a.iface) && IsUp(n, c.links[a].machine, c.links[a].iface)
    requires p in n.machines[a.machine].paths
    requires PassedOn(p, a.iface, n.machines[a.machine].ifaces[a.iface].relation)
    requires var m := n.machines[c.links[a].machine]; Acceptable(m.asn, m.paths, p.route)
    ensures var b, n1 := c.links[a], NetStep(c, n, a.machine, Advertise);
            && Enabled(c, n1, b.machine, Deliver(b.iface, Advertisement(n, a)))
            && var n2 := NetStep(c, n1, b.machine, Deliver(b.iface, Advertisement(n, a)));
            && b.machine < |n2.machines|
            && Stores(n2.machines[b.machine].paths,
                      Route([n.machines[b.machine].asn] + p.route.ases, p.route.dest))
  {
    var b, n1 := c.links[a], NetStep(c, n, a.machine, Advertise);
    var m := n.machines[b.machine];
    AdvertisementSent(c, n, a.machine);
    assert Packet(a, Advertisement(n, a)) in n1.sent;
    var rs := Advertisement(n, a).routes;
    ExportableIff(n.machines[a.machine].paths, a.iface, n.machines[a.machine].ifaces[a.iface].relation, p.route);
    var q :| 0 <= q < |rs| && rs[q] == p.route;
    OriginsAgree(c, n, a, q);
    hide Inv, Acceptable, Exportable, Learn;
    AllLearnt(m.asn, m.paths, b.iface, m.ifaces[b.iface].relation, rs, q);
  }

  /** `advertise` sends each established neighbour its advertisement, and nobody anything else. */
  lemma AdvertisementSent(c: Config, n: Net, k: nat)
    requires k < |n.machines|
    ensures var n1 := NetStep(c, n, k, Advertise);
            && n1.machines == n.machines
            && forall p :: p in n1.sent <==>
                 p in n.sent || (p.from.machine == k && IsUp(n, k, p.from.iface) && p.frame == Advertisement(n, p.from))
  {
    hide Exportable;
    var m, n1 := n.machines[k], NetStep(c, n, k, Advertise);
    forall p: Packet | p.from.machine == k && IsUp(n, k, p.from.iface) && p.frame == Advertisement(n, p.from)
      ensures p in n1.sent
    {
      assert Up(m, p.from.iface);
      assert Send(p.from.iface, p.frame) in Step(m, Advertise).1;
      assert p == Packet(End(k, p.from.iface), p.frame);
    }
  }

  /** The routes of one advertisement agree on the origin of each prefix, as the table they come from does. */
  lemma OriginsAgree(c: Config, n: Net, a: End, q: nat)
    requires Inv(c, n) && IsUp(n, a.machine, a.iface) && q < |Advertisement(n, a).routes|
    ensures var rs := Advertisement(n, a).routes;
            forall x :: 0 <= x < q && rs[x].dest == rs[q].dest ==>
                          rs[x].ases != [] && Origin(rs[x].ases) == Origin(rs[q].ases)
  {
    var m, rs := n.machines[a.machine], Advertisement(n, a).routes;
    assert MachineInv(c, n.claims, a.machine, m);
    forall x | 0 <= x < q && rs[x].dest == rs[q].dest
      ensures rs[x].ases != [] && Origin(rs[x].ases) == Origin(rs[q].ases)
    {
      ExportableIff(m.paths, a.iface, m.ifaces[a.iface].relation, rs[x]);
      ExportableIff(m.paths, a.iface, m.ifaces[a.iface].relation, rs[q]);
      assert rs[x] in rs && rs[q] in rs;
      var i :| 0 <= i < |m.paths| && m.paths[i].route == rs[x];
      var j :| 0 <= j < |m.paths| && m.paths[j].route == rs[q];
      assert GoodPath(c, n.claims, a.machine, m.paths[i]);
    }
  }

  /** The withdrawn paths are gone from the receiver's table, all others are still there, and the message goes on to
      every other interface, established or not. */
  lemma WithdrawalArrives(c: Config, n: Net, k: nat, i: nat, prefix: Prefix)
    requires Enabled(c, n, k, Deliver(i, Update([prefix], []))) && IsUp(n, k, i)
    ensures var n1 := NetStep(c, n, k, Deliver(i, Update([prefix], [])));
            && k < |n1.machines|
            && (forall p :: multiset(n1.machines[k].paths)[p]
                  == if p.route.dest.ip == prefix.ip && p.route.dest.mask != 0 then 0
                     else multiset(n.machines[k].paths)[p])
            && n1.sent == n.sent + set j: nat | j < |n.machines[k].ifaces| && j != i ::
                                     Packet(End(k, j), Update([prefix], []))
  {
    var m, n1 := n.machines[k], NetStep(c, n, k, Deliver(i, Update([prefix], [])));
    assert n1.machines[k].paths == ForgetAll(m.paths, [prefix]);
    hide Forget;
    forall p ensures multiset(n1.machines[k].paths)[p]
                     == if p.route.dest.ip == prefix.ip && p.route.dest.mask != 0 then 0
                        else multiset(m.paths)[p]
    {
      ForgetIff(m.paths, prefix, p);
    }
    var out := set j: nat | j < |m.ifaces| && j != i :: Packet(End(k, j), Update([prefix], []));
    forall x | x in out ensures x in n1.sent {
      assert Send(x.from.iface, x.frame) in Step(m, Deliver(i, Update([prefix], []))).1;
    }
  }

  /** `withdraw` drops the paths from the own table and tells every established neighbour, and only those. */
  lemma WithdrawalSent(c: Config, n: Net, k: nat, prefix: Prefix)
    requires k < |n.machines|
    ensures var n1 := NetStep(c, n, k, Withdraw(prefix));
            && (forall p :: multiset(n1.machines[k].paths)[p]
                  == if p.route.dest.ip == prefix.ip && p.route.dest.mask != 0 then 0
                     else multiset(n.machines[k].paths)[p])
            && forall p :: p in n1.sent <==>
                 p in n.sent || (p.frame == Update([prefix], []) && p.from.machine == k && IsUp(n, k, p.from.iface))
  {
    var m, n1 := n.machines[k], NetStep(c, n, k, Withdraw(prefix));
    hide Forget;
    forall p: Path ensures multiset(n1.machines[k].paths)[p]
                     == if p.route.dest.ip == prefix.ip && p.route.dest.mask != 0 then 0
                        else multiset(m.paths)[p]
    {
      ForgetIff(m.paths, prefix, p);
    }
    forall p: Packet | p.frame == Update([prefix], []) && p.from.machine == k && IsUp(n, k, p.from.iface)
      ensures p in n1.sent
    {
      assert Up(m, p.from.iface);
      assert Send(p.from.iface, p.frame) in Step(m, Withdraw(prefix)).1;
      assert p == Packet(End(k, p.from.iface), p.frame);
    }
  }
}
