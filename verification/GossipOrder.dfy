/** Quiescent agreement for the delivery the code has: gossip along a link comes
    in order and is not lost, while a join snapshot, on a stream of its own, may
    overtake gossip, be overtaken by it, or never arrive. */
module GossipOrder {
  import opened CatalogModel
  import opened Strings
  import opened Gossip
  import opened GossipTheorems

  /** Only the oldest gossip of a link is delivered, and none is lost. */
  predicate KeepsGossipOrder(c: Cluster, e: Event) {
    match e
    case Deliver(i, j, k) =>
      k < |InFlight(c, i, j)| && (InFlight(c, i, j)[k].Gossip? ==> Gossips(InFlight(c, i, j)[..k]) == [])
    case Lose(i, j, k) => k < |InFlight(c, i, j)| && InFlight(c, i, j)[k].Snapshot?
    case _ => true
  }

  ghost predicate GossipInOrder(c: Cluster, es: seq<Event>) {
    es == [] || (GossipInOrder(c, es[..|es| - 1]) && KeepsGossipOrder(Exec(c, es[..|es| - 1]), es[|es| - 1]))
  }

  /** The gossip among the packets of a link, oldest first. */
  function Gossips(q: seq<Packet>): seq<NodeInfoMsg> {
    if q == [] then []
    else Gossips(q[..|q| - 1]) + (if q[|q| - 1].Gossip? then [q[|q| - 1].msg] else [])
  }

  lemma {:induction false} GossipsConcat(a: seq<Packet>, b: seq<Packet>)
    ensures Gossips(a + b) == Gossips(a) + Gossips(b)
  {
    if b == [] {
      assert a + b == a;
    } else {
      var init := b[..|b| - 1];
      assert (a + b)[..|a + b| - 1] == a + init;
      GossipsConcat(a, init);
    }
  }

  lemma GossipsOne(p: Packet)
    ensures Gossips([p]) == if p.Gossip? then [p.msg] else []
  {
    assert [p][..0] == [];
  }

  lemma GossipsAround(a: seq<Packet>, p: Packet, b: seq<Packet>)
    ensures Gossips(a + [p] + b) == Gossips(a) + (if p.Gossip? then [p.msg] else []) + Gossips(b)
    ensures Gossips(a + b) == Gossips(a) + Gossips(b)
  {
    GossipsConcat(a + [p], b);
    GossipsConcat(a, [p]);
    GossipsOne(p);
    GossipsConcat(a, b);
  }

  /** Taking a snapshot out of a queue leaves its gossip. */
  lemma TakeSnapshot(q: seq<Packet>, k: nat)
    requires k < |q| && q[k].Snapshot?
    ensures Gossips(Without(q, k)) == Gossips(q)
  {
    assert q == q[..k] + [q[k]] + q[k + 1..];
    GossipsAround(q[..k], q[k], q[k + 1..]);
    var g := Gossips(q[..k]);
    assert g + [] == g;
  }

  /** Taking out the oldest gossip of a queue. */
  lemma TakeOldest(q: seq<Packet>, k: nat)
    requires k < |q| && q[k].Gossip? && Gossips(q[..k]) == []
    ensures Gossips(q) == [q[k].msg] + Gossips(Without(q, k))
  {
    var a, b := q[..k], q[k + 1..];
    assert q == a + [q[k]] + b;
    GossipsAround(a, q[k], b);
    NoneBefore(q[k].msg, Gossips(b));
  }

  lemma NoneBefore(m: NodeInfoMsg, g: seq<NodeInfoMsg>)
    ensures [] + g == g && [] + [m] + g == [m] + g
  {
  }

  lemma Append(q: seq<Packet>, p: Packet)
    ensures Gossips(q + [p]) == if p.Gossip? then Gossips(q) + [p.msg] else Gossips(q)
  {
    GossipsConcat(q, [p]);
    GossipsOne(p);
    var g := Gossips(q);
    assert g + [] == g;
  }

  // ------------------------------------------------------------------ deliveries

  predicate Delivers(e: Event, i: string, j: string) {
    e.Deliver? && e.from == i && e.to == j
  }

  /** The last packet of node i that reached node j. */
  ghost function LastDelivered(c: Cluster, es: seq<Event>, i: string, j: string): Option<Packet> {
    if es == [] then None
    else
      var before, e := Exec(c, es[..|es| - 1]), es[|es| - 1];
      if Delivers(e, i, j) && e.index < |InFlight(before, i, j)| then Some(InFlight(before, i, j)[e.index])
      else LastDelivered(c, es[..|es| - 1], i, j)
  }

  /** The last gossip of node i that reached node j. */
  ghost function LastGossip(c: Cluster, es: seq<Event>, i: string, j: string): Option<NodeInfoMsg> {
    if es == [] then None
    else
      var before, e := Exec(c, es[..|es| - 1]), es[|es| - 1];
      if Delivers(e, i, j) && e.index < |InFlight(before, i, j)| && InFlight(before, i, j)[e.index].Gossip?
      then Some(InFlight(before, i, j)[e.index].msg)
      else LastGossip(c, es[..|es| - 1], i, j)
  }

  lemma {:induction false} LastDeliveredGossip(c: Cluster, es: seq<Event>, i: string, j: string)
    requires LastDelivered(c, es, i, j).Some? && LastDelivered(c, es, i, j).value.Gossip?
    ensures LastGossip(c, es, i, j) == Some(LastDelivered(c, es, i, j).value.msg)
  {
    var before, e := Exec(c, es[..|es| - 1]), es[|es| - 1];
    if !(Delivers(e, i, j) && e.index < |InFlight(before, i, j)|) {
      LastDeliveredGossip(c, es[..|es| - 1], i, j);
    }
  }

  /** For any order and any loss, the record is the last packet that arrived. */
  lemma {:induction false} RecordIsLastDelivered(c: Cluster, es: seq<Event>, i: string, j: string)
    requires Fresh(c) && IsRun(c, es) && i != SELF
    ensures var p := LastDelivered(c, es, i, j);
            Recorded(Exec(c, es), i, j) == if p.Some? then MsgReport(p.value.msg) else NO_REPORT
  {
    if es != [] {
      var init := es[..|es| - 1];
      RecordIsLastDelivered(c, init, i, j);
      ReachablePackable(c, init, j);
      RecordedAfter(Exec(c, init), es[|es| - 1], i, j);
    }
  }

  // ------------------------------------------------------------- gossip sent and arrived

  predicate SendsGossip(c: Cluster, e: Event, i: string, j: string) {
    e.Publish? && e.node == i && (j, i) in c.rooms
  }

  /** The last gossip node i has sent to node j. */
  ghost function LastGossipSent(c: Cluster, es: seq<Event>, i: string, j: string): Option<NodeInfoMsg> {
    if es == [] then None
    else if SendsGossip(Exec(c, es[..|es| - 1]), es[|es| - 1], i, j) then Some(es[|es| - 1].msg)
    else LastGossipSent(c, es[..|es| - 1], i, j)
  }

  /** The newest gossip of a queue, or else the one that arrived last. */
  function Newest(q: seq<NodeInfoMsg>, arrived: Option<NodeInfoMsg>): Option<NodeInfoMsg> {
    if q == [] then arrived else Some(q[|q| - 1])
  }

  /** The gossip of a link goes from g to g' in one step; q are its packets before. */
  ghost predicate GossipStep(c: Cluster, e: Event, i: string, j: string, q: seq<Packet>,
                             g: seq<NodeInfoMsg>, g': seq<NodeInfoMsg>) {
    if SendsGossip(c, e, i, j) then g' == g + [e.msg]
    else if Delivers(e, i, j) && e.index < |q| && q[e.index].Gossip? then g == [q[e.index].msg] + g'
    else g' == g
  }

  lemma TakeStep(c: Cluster, e: Event, i: string, j: string, q: seq<Packet>, k: nat)
    requires (e == Deliver(i, j, k) || e == Lose(i, j, k)) && k < |q|
    requires q[k].Gossip? ==> e.Deliver? && Gossips(q[..k]) == []
    ensures GossipStep(c, e, i, j, q, Gossips(q), Gossips(Without(q, k)))
  {
    if q[k].Gossip? {
      TakeOldest(q, k);
    } else {
      TakeSnapshot(q, k);
    }
  }

  lemma GossipsAfter(c: Cluster, e: Event, i: string, j: string)
    requires Enabled(c, e) && KeepsGossipOrder(c, e)
    ensures var q := InFlight(c, i, j);
            GossipStep(c, e, i, j, q, Gossips(q), Gossips(InFlight(Step(c, e), i, j)))
  {
    InFlightAfter(c, e, i, j);
    var q := InFlight(c, i, j);
    match e
    case Publish(k, msg) => Append(q, Gossip(msg));
    case SendSnapshot(k, l, msg) => Append(q, Snapshot(msg));
    case Deliver(k, l, n) => if k == i && l == j { TakeStep(c, e, i, j, q, n); }
    case Lose(k, l, n) => if k == i && l == j { TakeStep(c, e, i, j, q, n); }
    case _ =>
  }

  /** The newest gossip in the queue, else the last one that arrived, is the last one sent. */
  lemma {:induction false} NewestIsLastSent(c: Cluster, es: seq<Event>, i: string, j: string)
    requires Fresh(c) && IsRun(c, es) && GossipInOrder(c, es)
    ensures Newest(Gossips(InFlight(Exec(c, es), i, j)), LastGossip(c, es, i, j)) == LastGossipSent(c, es, i, j)
  {
    if es != [] {
      var init := es[..|es| - 1];
      NewestIsLastSent(c, init, i, j);
      GossipsAfter(Exec(c, init), es[|es| - 1], i, j);
    }
  }

  /** Once a node has gossiped to a peer, the last gossip sent is its own report
      whenever it has nothing left to publish. */
  lemma {:induction false} GossipSentIsOwn(c: Cluster, es: seq<Event>, i: string, j: string)
    requires Fresh(c) && IsRun(c, es) && LastGossipSent(c, es, i, j).Some?
    ensures var c' := Exec(c, es);
            && (j, i) in c'.rooms && i in c'.nodes
            && (c'.nodes[i].pending == 0 ==> MsgReport(LastGossipSent(c, es, i, j).value) == Own(c', i))
  {
    var init, e := es[..|es| - 1], es[|es| - 1];
    var before := Exec(c, init);
    RoomsGrow(before, e);
    if SendsGossip(before, e, i, j) {
      StepOwn(c, es, i);
      PackIsOwn(before, i, e.msg);
    } else {
      GossipSentIsOwn(c, init, i, j);
      StepOwn(c, es, i);
    }
  }

  // --------------------------------------------------------------------- at rest

  /** The last packet that arrived is gossip, or a snapshot that still holds, or
      nothing arrived and there is nothing to report. */
  ghost predicate Settled(c: Cluster, es: seq<Event>, i: string, j: string) {
    match LastDelivered(c, es, i, j)
    case None => Own(Exec(c, es), i) == NO_REPORT
    case Some(Gossip(_)) => true
    case Some(Snapshot(msg)) => MsgReport(msg) == Own(Exec(c, es), i)
  }

  lemma GossipArrivedIsOwn(c: Cluster, es: seq<Event>, i: string, j: string)
    requires Fresh(c) && IsRun(c, es) && GossipInOrder(c, es) && Quiet(Exec(c, es))
    requires LastGossip(c, es, i, j).Some?
    ensures MsgReport(LastGossip(c, es, i, j).value) == Own(Exec(c, es), i)
  {
    NewestIsLastSent(c, es, i, j);
    assert InFlight(Exec(c, es), i, j) == [];
    GossipSentIsOwn(c, es, i, j);
  }

  /** At rest a peer has a node's own replica table and overload flag on record
      exactly when the last packet that arrived is gossip, or a snapshot that
      still holds, or nothing arrived and there is nothing to report. */
  lemma QuietIff(c: Cluster, es: seq<Event>, i: string, j: string)
    requires Fresh(c) && IsRun(c, es) && GossipInOrder(c, es) && Quiet(Exec(c, es)) && i != SELF
    ensures Recorded(Exec(c, es), i, j) == Own(Exec(c, es), i) <==> Settled(c, es, i, j)
  {
    RecordIsLastDelivered(c, es, i, j);
    var p := LastDelivered(c, es, i, j);
    if p.Some? && p.value.Gossip? {
      LastDeliveredGossip(c, es, i, j);
      GossipArrivedIsOwn(c, es, i, j);
    }
  }

  /** At rest a node whose links are all settled holds, for each function it
      knows, the number of replicas in the cluster, and knows all that runs. */
  lemma SettledClusterAgreement(c: Cluster, es: seq<Event>, j: string, f: string)
    requires Fresh(c) && IsRun(c, es) && GossipInOrder(c, es) && Quiet(Exec(c, es))
    requires j in Exec(c, es).nodes
    requires forall i :: i in Exec(c, es).nodes && i != j ==>
               i in Exec(c, es).nodes[j].nodes && Settled(c, es, i, j)
    ensures forall i :: i in Exec(c, es).nodes ==> SELF in Exec(c, es).nodes[i].nodes
    ensures f in Exec(c, es).nodes[j].functions ==>
              Exec(c, es).nodes[j].functions[f].replicas == ClusterTotal(Exec(c, es), f)
    ensures ClusterTotal(Exec(c, es), f) > 0 ==> f in Exec(c, es).nodes[j].functions
  {
    ReachableInv(c, es);
    forall i | i in Exec(c, es).nodes && i != j ensures Recorded(Exec(c, es), i, j) == Own(Exec(c, es), i) {
      QuietIff(c, es, i, j);
    }
    RecordsGiveAgreement(Exec(c, es), j, f);
  }
}
