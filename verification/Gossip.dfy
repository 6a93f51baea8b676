/** The catalogs of a whole cluster and the messages between them. A run is a
    sequence of events; each event is one atomic catalog operation, one publish,
    one join snapshot, or one delivery. */
module Gossip {
  import opened CatalogModel

  /** A join snapshot travels on a stream of its own, everything else by gossip. */
  datatype Packet = Snapshot(msg: NodeInfoMsg) | Gossip(msg: NodeInfoMsg)

  datatype Cluster = Cluster(nodes: map<string, Catalog>,
                             links: map<(string, string), seq<Packet>>,
                             rooms: set<(string, string)>)

  datatype Event =
    | Local(node: string, op: Op)
    | Publish(node: string, msg: NodeInfoMsg)
    | Connect(node: string, peer: string)
    | Subscribe(node: string, peer: string)
    | SendSnapshot(node: string, peer: string, msg: NodeInfoMsg)
    | Deliver(from: string, to: string, index: nat)
    | Lose(from: string, to: string, index: nat)

  /** What is on its way from one node to another, oldest first. */
  function InFlight(c: Cluster, i: string, j: string): seq<Packet> {
    if (i, j) in c.links then c.links[(i, j)] else []
  }

  predicate Flying(c: Cluster, i: string, j: string, p: Packet) {
    p in InFlight(c, i, j)
  }

  predicate Peers(c: Cluster, i: string, j: string) {
    i in c.nodes && j in c.nodes && i != j
  }

  ghost predicate Enabled(c: Cluster, e: Event) {
    match e
    case Local(i, op) =>
      && i in c.nodes && SELF in c.nodes[i].nodes && !op.Peer? && !op.Receive?
      && Legal(c.nodes[i], op)
    case Publish(i, msg) => i in c.nodes && c.nodes[i].pending > 0 && IsPack(c.nodes[i], msg)
    case Connect(i, j) => Peers(c, i, j)
    case Subscribe(i, j) => Peers(c, i, j) && j in c.nodes[i].nodes
    case SendSnapshot(i, j, msg) => Peers(c, i, j) && j in c.nodes[i].nodes && IsPack(c.nodes[i], msg)
    case Deliver(i, j, k) =>
      Peers(c, i, j) && k < |InFlight(c, i, j)| && (InFlight(c, i, j)[k].Gossip? ==> i in c.nodes[j].nodes)
    case Lose(i, j, k) => k < |InFlight(c, i, j)|
  }

  function Without<T>(s: seq<T>, k: nat): seq<T>
    requires k < |s|
  {
    s[..k] + s[k + 1..]
  }

  function SendTo(c: Cluster, i: string, j: string, p: Packet): Cluster {
    c.(links := c.links[(i, j) := InFlight(c, i, j) + [p]])
  }

  /** A publish reaches every node that has joined the room of i. */
  function Broadcast(c: Cluster, i: string, p: Packet): Cluster {
    c.(links := map l | l in c.links.Keys + (set r | r in c.rooms && r.1 == i :: (i, r.0)) ::
         if l.0 == i && (l.1, i) in c.rooms then InFlight(c, i, l.1) + [p] else InFlight(c, l.0, l.1))
  }

  /** The catalog of the receiver after packet p of node i; a snapshot first makes sure there is an entry. */
  ghost function Receives(c: Catalog, i: string, p: Packet): Catalog
    requires p.Gossip? ==> i in c.nodes
  {
    Unpack(if p.Snapshot? then NewPeer(c, i) else c, i, p.msg)
  }

  ghost function Step(c: Cluster, e: Event): Cluster
    requires Enabled(c, e)
  {
    match e
    case Local(i, op) => c.(nodes := c.nodes[i := Apply(c.nodes[i], op)])
    case Publish(i, msg) =>
      Broadcast(c.(nodes := c.nodes[i := c.nodes[i].(pending := c.nodes[i].pending - 1)]), i, Gossip(msg))
    case Connect(i, j) => c.(nodes := c.nodes[i := NewPeer(c.nodes[i], j)])
    case Subscribe(i, j) => c.(rooms := c.rooms + {(i, j)})
    case SendSnapshot(i, j, msg) => SendTo(c, i, j, Snapshot(msg))
    case Deliver(i, j, k) =>
      c.(nodes := c.nodes[j := Receives(c.nodes[j], i, InFlight(c, i, j)[k])],
         links := c.links[(i, j) := Without(InFlight(c, i, j), k)])
    case Lose(i, j, k) => c.(links := c.links[(i, j) := Without(InFlight(c, i, j), k)])
  }

  ghost predicate IsRun(c: Cluster, es: seq<Event>) {
    es == [] || (IsRun(c, es[..|es| - 1]) && Enabled(Exec(c, es[..|es| - 1]), es[|es| - 1]))
  }

  ghost function Exec(c: Cluster, es: seq<Event>): Cluster {
    if es == [] then c
    else
      var before := Exec(c, es[..|es| - 1]);
      if Enabled(before, es[|es| - 1]) then Step(before, es[|es| - 1]) else before
  }

  /** Every node has just started: no peers, nothing published, no rooms joined. */
  ghost predicate Fresh(c: Cluster) {
    && SELF !in c.nodes
    && c.links == map[] && c.rooms == {}
    && (forall i :: i in c.nodes ==> Inv(c.nodes[i]) && c.nodes[i].nodes.Keys == {SELF} && c.nodes[i].pending == 0)
  }

  function Own(c: Cluster, i: string): Report {
    if i in c.nodes && SELF in c.nodes[i].nodes then ReportOf(c.nodes[i].nodes[SELF]) else NO_REPORT
  }

  /** What node j has recorded about node i. */
  function Recorded(c: Cluster, i: string, j: string): Report {
    if j in c.nodes && i in c.nodes[j].nodes then ReportOf(c.nodes[j].nodes[i]) else NO_REPORT
  }

  function MsgReport(msg: NodeInfoMsg): Report { Report(MsgCounts(msg.functions), msg.overload) }

  // ------------------------------------------------------------- every reachable state

  /** Records, rooms and links are between members of the cluster, and every
      gossip message in flight has an entry waiting for it at its destination. */
  ghost predicate Topology(c: Cluster) {
    && SELF !in c.nodes
    && (forall j :: j in c.nodes ==> SELF in c.nodes[j].nodes)
    && (forall i, j :: j in c.nodes && i in c.nodes[j].nodes && i != SELF ==> Peers(c, i, j))
    && (forall i, j :: (i, j) in c.rooms ==> Peers(c, i, j) && j in c.nodes[i].nodes)
    && (forall i, j :: (i, j) in c.links ==> Peers(c, i, j))
    && (forall i, j, p :: Flying(c, i, j, p) && p.Gossip? ==> Peers(c, i, j) && i in c.nodes[j].nodes)
  }

  ghost predicate ClusterInv(c: Cluster) {
    Topology(c) && forall i :: i in c.nodes ==> Inv(c.nodes[i])
  }

  lemma ReceivesKeepsInv(c: Catalog, i: string, p: Packet)
    requires Inv(c) && i != SELF && (p.Gossip? ==> i in c.nodes)
    ensures Inv(Receives(c, i, p))
  {
    NewPeerKeepsInv(c, i);
    UnpackKeepsInv(if p.Snapshot? then NewPeer(c, i) else c, i, p.msg);
  }

  lemma ReceivesFrame(c: Catalog, i: string, p: Packet)
    requires p.Gossip? ==> i in c.nodes
    ensures var c' := Receives(c, i, p);
            && c'.nodes.Keys == c.nodes.Keys + {i}
            && ReportOf(c'.nodes[i]) == MsgReport(p.msg)
            && c'.nodes - {i} == c.nodes - {i}
            && c'.pending == c.pending
  {
  }

  /** A local operation leaves what is on record of the peers' reports alone and
      asks for a publish whenever it changes what the node reports itself. */
  lemma LocalFrame(c: Catalog, op: Op)
    requires Packable(c)
    requires Legal(c, op) && !op.Peer? && !op.Receive?
    ensures var c' := Apply(c, op);
            && c'.nodes.Keys == c.nodes.Keys
            && (forall id :: id in c.nodes && id != SELF ==> ReportOf(c'.nodes[id]) == ReportOf(c.nodes[id]))
            && (ReportOf(c'.nodes[SELF]) != ReportOf(c.nodes[SELF]) ==> c'.pending > 0)
            && c'.pending >= c.pending
  {
    if op.Delete? && op.f !in c.functions {
      assert c.nodes[SELF].replicas - {op.f} == c.nodes[SELF].replicas;
    }
  }

  lemma StepKeepsNodeInv(c: Cluster, e: Event, i: string)
    requires ClusterInv(c) && Enabled(c, e) && i in Step(c, e).nodes
    ensures Inv(Step(c, e).nodes[i])
  {
    match e
    case Local(k, op) => if k == i { ApplyKeepsInv(c.nodes[i], op); }
    case Publish(k, msg) => if k == i { PendingKeepsInv(c.nodes[i], c.nodes[i].pending - 1); }
    case Connect(k, j) => if k == i { NewPeerKeepsInv(c.nodes[i], j); }
    case Deliver(k, j, n) => if j == i { ReceivesKeepsInv(c.nodes[i], k, InFlight(c, k, j)[n]); }
    case _ =>
  }

  lemma PendingKeepsInv(c: Catalog, pending: nat)
    requires Inv(c)
    ensures Inv(c.(pending := pending))
  {
  }

  /** How one step changes the catalog of node j. */
  ghost predicate CatalogStep(c: Catalog, e: Event, j: string, c': Catalog) {
    && c.nodes.Keys <= c'.nodes.Keys
    && (forall i :: i in c'.nodes && i !in c.nodes ==>
          e == Connect(j, i) || (e.Deliver? && e.to == j && e.from == i))
    && (forall i :: i in c.nodes && i != SELF && !(e.Deliver? && e.to == j && e.from == i) ==>
          ReportOf(c'.nodes[i]) == ReportOf(c.nodes[i]))
    && (SELF in c.nodes && ReportOf(c'.nodes[SELF]) != ReportOf(c.nodes[SELF]) ==> c'.pending > 0)
    && (c'.pending < c.pending ==> e.Publish? && e.node == j)
  }

  lemma StepAt(c: Cluster, e: Event, j: string)
    requires SELF !in c.nodes && j in c.nodes && Packable(c.nodes[j]) && Enabled(c, e)
    ensures Step(c, e).nodes.Keys == c.nodes.Keys
    ensures CatalogStep(c.nodes[j], e, j, Step(c, e).nodes[j])
  {
    match e
    case Local(k, op) => if k == j { LocalStep(c.nodes[j], e); }
    case Deliver(k, l, n) => if l == j { DeliverStep(c.nodes[j], e, InFlight(c, k, l)[n]); }
    case Publish(k, msg) =>
    case Connect(k, l) =>
    case Subscribe(k, l) =>
    case SendSnapshot(k, l, msg) =>
    case Lose(k, l, n) =>
  }

  lemma LocalStep(c: Catalog, e: Event)
    requires Packable(c)
    requires e.Local? && Legal(c, e.op) && !e.op.Peer? && !e.op.Receive?
    ensures CatalogStep(c, e, e.node, Apply(c, e.op))
  {
    LocalFrame(c, e.op);
  }

  lemma DeliverStep(c: Catalog, e: Event, p: Packet)
    requires e.Deliver? && e.from != SELF && (p.Gossip? ==> e.from in c.nodes)
    ensures CatalogStep(c, e, e.to, Receives(c, e.from, p))
  {
    ReceivesFrame(c, e.from, p);
    var c' := Receives(c, e.from, p);
    forall i | i in c.nodes && i != e.from ensures c'.nodes[i] == c.nodes[i] {
      assert (c'.nodes - {e.from})[i] == (c.nodes - {e.from})[i];
    }
  }

  lemma InFlightAfter(c: Cluster, e: Event, i: string, j: string)
    requires Enabled(c, e)
    ensures InFlight(Step(c, e), i, j) ==
            match e
            case Publish(k, msg) =>
              if k == i && (j, i) in c.rooms then InFlight(c, i, j) + [Gossip(msg)] else InFlight(c, i, j)
            case SendSnapshot(k, l, msg) =>
              if k == i && l == j then InFlight(c, i, j) + [Snapshot(msg)] else InFlight(c, i, j)
            case Deliver(k, l, n) =>
              if k == i && l == j then Without(InFlight(c, i, j), n) else InFlight(c, i, j)
            case Lose(k, l, n) =>
              if k == i && l == j then Without(InFlight(c, i, j), n) else InFlight(c, i, j)
            case _ => InFlight(c, i, j)
  {
    if e.Publish? && e.node == i && (j, i) in c.rooms {
      assert (i, j) in (set r | r in c.rooms && r.1 == i :: (i, r.0)) by {
        assert (j, i) in c.rooms && (j, i).1 == i;
      }
    }
  }

  /** How one step changes rooms and links. */
  ghost predicate LinkStep(c: Cluster, e: Event, c': Cluster) {
    && c'.nodes.Keys == c.nodes.Keys
    && (forall i, j :: (i, j) in c'.rooms ==> (i, j) in c.rooms || (Peers(c, i, j) && j in c.nodes[i].nodes))
    && (forall i, j :: (i, j) in c'.links ==> (i, j) in c.links || (j, i) in c.rooms || Peers(c, i, j))
    && (forall i, j, p :: Flying(c', i, j, p) ==>
          Flying(c, i, j, p) || p.Snapshot? || (j, i) in c.rooms)
  }

  lemma StepMembers(c: Cluster, e: Event)
    requires Enabled(c, e)
    ensures Step(c, e).nodes.Keys == c.nodes.Keys
  {
  }

  lemma StepRooms(c: Cluster, e: Event)
    requires Enabled(c, e)
    ensures Step(c, e).rooms == if e.Subscribe? then c.rooms + {(e.node, e.peer)} else c.rooms
  {
  }

  lemma StepLinkKeys(c: Cluster, e: Event, i: string, j: string)
    requires Topology(c) && Enabled(c, e) && (i, j) in Step(c, e).links
    ensures (i, j) in c.links || (j, i) in c.rooms || Peers(c, i, j)
  {
    match e
    case Publish(k, msg) =>
      if (i, j) !in c.links {
        var r :| r in c.rooms && r.1 == k && (k, r.0) == (i, j);
        assert r == (j, i);
      }
    case SendSnapshot(k, l, msg) => assert Step(c, e).links.Keys == c.links.Keys + {(k, l)};
    case Deliver(k, l, n) => assert Step(c, e).links.Keys == c.links.Keys + {(k, l)};
    case Lose(k, l, n) => assert Step(c, e).links.Keys == c.links.Keys + {(k, l)};
    case Local(k, op) => assert Step(c, e).links == c.links;
    case Connect(k, l) =>
    case Subscribe(k, l) =>
  }

  lemma StepFlying(c: Cluster, e: Event, i: string, j: string, p: Packet)
    requires Enabled(c, e) && Flying(Step(c, e), i, j, p)
    ensures Flying(c, i, j, p) || p.Snapshot? || (j, i) in c.rooms
  {
    InFlightAfter(c, e, i, j);
  }

  lemma StepLinks(c: Cluster, e: Event)
    requires Topology(c) && Enabled(c, e) && Step(c, e).nodes.Keys == c.nodes.Keys
    ensures LinkStep(c, e, Step(c, e))
  {
    StepRooms(c, e);
    forall i, j | (i, j) in Step(c, e).links ensures (i, j) in c.links || (j, i) in c.rooms || Peers(c, i, j) {
      StepLinkKeys(c, e, i, j);
    }
    forall i, j, p | Flying(Step(c, e), i, j, p) ensures Flying(c, i, j, p) || p.Snapshot? || (j, i) in c.rooms {
      StepFlying(c, e, i, j, p);
    }
  }

  lemma TopologyCarries(c: Cluster, e: Event, c': Cluster)
    requires Topology(c) && LinkStep(c, e, c')
    requires forall j :: j in c.nodes ==> c.nodes[j].nodes.Keys <= c'.nodes[j].nodes.Keys
    requires forall i, j :: j in c.nodes && i in c'.nodes[j].nodes ==> i in c.nodes[j].nodes || Peers(c, i, j)
    ensures Topology(c')
  {
    forall i, j | Peers(c, i, j) ensures Peers(c', i, j) {}
    forall i, j | j in c'.nodes && i in c'.nodes[j].nodes && i != SELF ensures Peers(c', i, j) {
      assert Peers(c, i, j);
    }
    forall i, j | j in c.nodes && i in c.nodes[j].nodes ensures i in c'.nodes[j].nodes {
      assert i in c.nodes[j].nodes.Keys;
    }
    forall i, j | (i, j) in c'.rooms ensures Peers(c', i, j) && j in c'.nodes[i].nodes {
      assert Peers(c, i, j) && j in c.nodes[i].nodes;
    }
    forall i, j | (i, j) in c'.links ensures Peers(c', i, j) {
      if (j, i) in c.rooms {
        assert Peers(c, j, i);
      }
      assert Peers(c, i, j);
    }
    forall i, j, p | Flying(c', i, j, p) && p.Gossip? ensures Peers(c', i, j) && i in c'.nodes[j].nodes {
      if (j, i) in c.rooms {
        assert Peers(c, j, i);
      } else {
        assert Flying(c, i, j, p);
      }
      assert i in c.nodes[j].nodes;
    }
  }

  /** Entries stay, and a new one is for a member of the cluster. */
  lemma StepEntries(c: Cluster, e: Event, j: string)
    requires SELF !in c.nodes && j in c.nodes && Packable(c.nodes[j]) && Enabled(c, e)
    requires Step(c, e).nodes.Keys == c.nodes.Keys
    ensures c.nodes[j].nodes.Keys <= Step(c, e).nodes[j].nodes.Keys
    ensures forall i :: i in Step(c, e).nodes[j].nodes ==> i in c.nodes[j].nodes || Peers(c, i, j)
  {
    StepAt(c, e, j);
  }

  lemma StepKeepsTopology(c: Cluster, e: Event)
    requires Topology(c) && (forall i :: i in c.nodes ==> Packable(c.nodes[i])) && Enabled(c, e)
    ensures Topology(Step(c, e))
  {
    StepMembers(c, e);
    StepLinks(c, e);
    forall j | j in c.nodes
      ensures c.nodes[j].nodes.Keys <= Step(c, e).nodes[j].nodes.Keys
      ensures forall i :: i in Step(c, e).nodes[j].nodes ==> i in c.nodes[j].nodes || Peers(c, i, j)
    {
      StepEntries(c, e, j);
    }
    TopologyCarries(c, e, Step(c, e));
  }

  lemma StepKeepsInv(c: Cluster, e: Event)
    requires ClusterInv(c) && Enabled(c, e)
    ensures ClusterInv(Step(c, e))
  {
    StepKeepsTopology(c, e);
    forall i | i in Step(c, e).nodes ensures Inv(Step(c, e).nodes[i]) {
      StepKeepsNodeInv(c, e, i);
    }
  }

  /** In every reachable state, whatever is lost or reordered: each aggregate is
      the sum of the records, every lookup of packing, unpacking, listing and
      scheduling finds its entry, and every gossip message in flight has an
      entry waiting for it at its destination. */
  lemma {:induction false} ReachableInv(c: Cluster, es: seq<Event>)
    requires Fresh(c) && IsRun(c, es)
    ensures ClusterInv(Exec(c, es))
  {
    if es != [] {
      ReachableInv(c, es[..|es| - 1]);
      StepKeepsInv(Exec(c, es[..|es| - 1]), es[|es| - 1]);
    }
  }

  /** In every reachable state any packet in flight can arrive next, or be lost. */
  lemma AnyPacketCanArrive(c: Cluster, es: seq<Event>, i: string, j: string, k: nat)
    requires Fresh(c) && IsRun(c, es) && k < |InFlight(Exec(c, es), i, j)|
    ensures Enabled(Exec(c, es), Deliver(i, j, k)) && Enabled(Exec(c, es), Lose(i, j, k))
  {
    ReachableInv(c, es);
    assert Flying(Exec(c, es), i, j, InFlight(Exec(c, es), i, j)[k]);
  }
}
