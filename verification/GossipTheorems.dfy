/** What holds of whole runs of the gossip protocol. */
module GossipTheorems {
  import opened Sums
  import opened CatalogModel
  import opened Gossip

  // ------------------------------------------------------------- no invented state

  /** Node i reported r at some moment of the run, or r is the empty report of a new entry. */
  ghost predicate Held(c: Cluster, es: seq<Event>, i: string, r: Report) {
    r == NO_REPORT || exists k :: 0 <= k <= |es| && Own(Exec(c, es[..k]), i) == r
  }

  lemma HeldLonger(c: Cluster, es: seq<Event>, i: string, r: Report)
    requires es != [] && Held(c, es[..|es| - 1], i, r)
    ensures Held(c, es, i, r)
  {
    var init := es[..|es| - 1];
    if r != NO_REPORT {
      var k :| 0 <= k <= |init| && Own(Exec(c, init[..k]), i) == r;
      assert init[..k] == es[..k];
    }
  }

  lemma HeldJustBefore(c: Cluster, es: seq<Event>, i: string)
    requires es != []
    ensures Held(c, es, i, Own(Exec(c, es[..|es| - 1]), i))
  {
  }

  lemma PackIsOwn(c: Cluster, i: string, msg: NodeInfoMsg)
    requires i in c.nodes && IsPack(c.nodes[i], msg)
    ensures MsgReport(msg) == Own(c, i)
  {
    PackedCounts(c.nodes[i], msg);
  }

  /** A new packet carries the report of its sender at that moment; nothing else is new. */
  lemma FlyingAfter(c: Cluster, e: Event, i: string, j: string, p: Packet)
    requires Enabled(c, e) && Flying(Step(c, e), i, j, p)
    ensures Flying(c, i, j, p) || MsgReport(p.msg) == Own(c, i)
  {
    InFlightAfter(c, e, i, j);
    match e
    case Publish(k, msg) => PackIsOwn(c, k, msg);
    case SendSnapshot(k, l, msg) => PackIsOwn(c, k, msg);
    case _ =>
  }

  lemma ReachablePackable(c: Cluster, es: seq<Event>, i: string)
    requires Fresh(c) && IsRun(c, es)
    ensures SELF !in Exec(c, es).nodes && (i in Exec(c, es).nodes ==> Packable(Exec(c, es).nodes[i]))
  {
    ReachableInv(c, es);
  }

  /** A record changes only by a delivery, and then becomes what the message says. */
  lemma RecordedAfter(c: Cluster, e: Event, i: string, j: string)
    requires SELF !in c.nodes && (j in c.nodes ==> Packable(c.nodes[j])) && Enabled(c, e) && i != SELF
    ensures Recorded(Step(c, e), i, j) ==
            if e.Deliver? && e.from == i && e.to == j then MsgReport(InFlight(c, i, j)[e.index].msg)
            else Recorded(c, i, j)
  {
    if j in c.nodes {
      StepAt(c, e, j);
      if e.Deliver? && e.from == i && e.to == j {
        ReceivesFrame(c.nodes[j], i, InFlight(c, i, j)[e.index]);
      }
      if e == Connect(j, i) && i !in c.nodes[j].nodes {
        assert Step(c, e).nodes[j].nodes[i] == NO_INFO;
      }
    }
  }

  /** No invented state: in every reachable state, whatever the order of
      deliveries and whatever is lost, the replica table and the overload flag a
      peer has on record are what their owner reported together at one moment. */
  lemma {:induction false} NoInventedState(c: Cluster, es: seq<Event>, i: string, j: string)
    requires Fresh(c) && IsRun(c, es) && i != SELF
    ensures Held(c, es, i, Recorded(Exec(c, es), i, j))
    ensures forall p :: Flying(Exec(c, es), i, j, p) ==> Held(c, es, i, MsgReport(p.msg))
  {
    if es == [] {
    } else {
      var init, e := es[..|es| - 1], es[|es| - 1];
      var before := Exec(c, init);
      NoInventedState(c, init, i, j);
      ReachablePackable(c, init, j);
      RecordedAfter(before, e, i, j);
      if e.Deliver? && e.from == i && e.to == j {
        var p := InFlight(before, i, j)[e.index];
        assert Flying(before, i, j, p);
        HeldLonger(c, es, i, MsgReport(p.msg));
      } else {
        HeldLonger(c, es, i, Recorded(before, i, j));
      }
      forall p | Flying(Exec(c, es), i, j, p) ensures Held(c, es, i, MsgReport(p.msg)) {
        FlyingAfter(before, e, i, j, p);
        if Flying(before, i, j, p) {
          HeldLonger(c, es, i, MsgReport(p.msg));
        } else {
          HeldJustBefore(c, es, i);
        }
      }
    }
  }

  // ----------------------------------------------------------- in-order delivery

  /** Each link delivers in order and loses nothing. */
  predicate InOrder(es: seq<Event>) {
    forall k :: 0 <= k < |es| ==> !es[k].Lose? && (es[k].Deliver? ==> es[k].index == 0)
  }

  predicate Sends(c: Cluster, e: Event, i: string, j: string) {
    || (e.SendSnapshot? && e.node == i && e.peer == j)
    || (e.Publish? && e.node == i && (j, i) in c.rooms)
  }

  /** The last report node i has sent to node j. */
  ghost function LastSent(c: Cluster, es: seq<Event>, i: string, j: string): Report {
    if es == [] then NO_REPORT
    else if Sends(Exec(c, es[..|es| - 1]), es[|es| - 1], i, j) then MsgReport(es[|es| - 1].msg)
    else LastSent(c, es[..|es| - 1], i, j)
  }

  /** What node j will have on record once everything from i has arrived. */
  function Latest(c: Cluster, i: string, j: string): Report {
    var q := InFlight(c, i, j);
    if q == [] then Recorded(c, i, j) else MsgReport(q[|q| - 1].msg)
  }

  /** The same, said of the queue and the record before and after one step. */
  lemma LatestAfter(c: Cluster, e: Event, c': Cluster, i: string, j: string)
    requires !e.Lose? && (e.Deliver? ==> e.index == 0)
    requires var q := InFlight(c, i, j);
             if Sends(c, e, i, j)
             then |InFlight(c', i, j)| == |q| + 1 && InFlight(c', i, j)[|q|].msg == e.msg
             else if e.Deliver? && e.from == i && e.to == j
             then q != [] && InFlight(c', i, j) == q[1..]
             else InFlight(c', i, j) == q
    requires Recorded(c', i, j) ==
             if e.Deliver? && e.from == i && e.to == j && InFlight(c, i, j) != []
             then MsgReport(InFlight(c, i, j)[0].msg) else Recorded(c, i, j)
    ensures Latest(c', i, j) == if Sends(c, e, i, j) then MsgReport(e.msg) else Latest(c, i, j)
  {
  }

  lemma StepLatest(c: Cluster, es: seq<Event>, i: string, j: string)
    requires Fresh(c) && IsRun(c, es) && InOrder(es) && es != [] && i != SELF
    ensures var before, e := Exec(c, es[..|es| - 1]), es[|es| - 1];
            Latest(Exec(c, es), i, j) == if Sends(before, e, i, j) then MsgReport(e.msg) else Latest(before, i, j)
  {
    var before, e := Exec(c, es[..|es| - 1]), es[|es| - 1];
    ReachablePackable(c, es[..|es| - 1], j);
    InFlightAfter(before, e, i, j);
    RecordedAfter(before, e, i, j);
    LatestAfter(before, e, Exec(c, es), i, j);
  }

  /** With in-order delivery, the newest word in the pipe is the last one sent. */
  lemma {:induction false} LatestIsLastSent(c: Cluster, es: seq<Event>, i: string, j: string)
    requires Fresh(c) && IsRun(c, es) && InOrder(es) && i != SELF
    ensures Latest(Exec(c, es), i, j) == LastSent(c, es, i, j)
  {
    if es != [] {
      var init := es[..|es| - 1];
      assert forall k :: 0 <= k < |init| ==> init[k] == es[k];
      LatestIsLastSent(c, init, i, j);
      StepLatest(c, es, i, j);
    }
  }

  predicate JoinedAt(es: seq<Event>, i: string, j: string, a: int, b: int) {
    0 <= a < b < |es| && es[a] == Subscribe(j, i) && es[b].SendSnapshot? && es[b].node == i && es[b].peer == j
  }

  /** Node j joined the room of i, and i sent its snapshot to j after that. */
  ghost predicate Joined(es: seq<Event>, i: string, j: string) {
    exists a, b :: JoinedAt(es, i, j, a, b)
  }

  lemma RoomsGrow(c: Cluster, e: Event)
    requires Enabled(c, e)
    ensures c.rooms <= Step(c, e).rooms
    ensures e.Subscribe? ==> (e.node, e.peer) in Step(c, e).rooms
  {
  }

  lemma {:induction false} RoomsKept(c: Cluster, es: seq<Event>, a: nat)
    requires IsRun(c, es) && a < |es| && es[a].Subscribe?
    ensures (es[a].node, es[a].peer) in Exec(c, es).rooms
  {
    var init := es[..|es| - 1];
    RoomsGrow(Exec(c, init), es[|es| - 1]);
    if a < |init| {
      assert init[a] == es[a];
      RoomsKept(c, init, a);
    }
  }

  /** A subscriber has an entry for the node whose room it joined. */
  lemma RoomEntry(c: Cluster, es: seq<Event>, j: string, i: string)
    requires Fresh(c) && IsRun(c, es) && (j, i) in Exec(c, es).rooms
    ensures var c' := Exec(c, es); i in c'.nodes && j in c'.nodes && i in c'.nodes[j].nodes
  {
    ReachableInv(c, es);
    assert Peers(Exec(c, es), j, i);
  }

  /** How the report of node i moves in the last step of a run. */
  lemma StepOwn(c: Cluster, es: seq<Event>, i: string)
    requires Fresh(c) && IsRun(c, es) && es != [] && i in Exec(c, es[..|es| - 1]).nodes
    ensures var before, e, after := Exec(c, es[..|es| - 1]), es[|es| - 1], Exec(c, es);
            && i in after.nodes
            && (Own(after, i) != Own(before, i) ==> after.nodes[i].pending > 0)
            && (after.nodes[i].pending < before.nodes[i].pending ==> e.Publish? && e.node == i)
            && (e.Publish? || e.SendSnapshot? ==> Own(after, i) == Own(before, i))
  {
    ReachablePackable(c, es[..|es| - 1], i);
    StepAt(Exec(c, es[..|es| - 1]), es[|es| - 1], i);
  }

  /** What a node sends is its own report at that moment. */
  lemma StepSends(c: Cluster, es: seq<Event>, i: string, j: string)
    requires IsRun(c, es) && es != [] && Sends(Exec(c, es[..|es| - 1]), es[|es| - 1], i, j)
    ensures MsgReport(es[|es| - 1].msg) == Own(Exec(c, es[..|es| - 1]), i)
  {
    PackIsOwn(Exec(c, es[..|es| - 1]), i, es[|es| - 1].msg);
  }

  /** If the last report sent was right as long as nothing is pending, it is so after one more step. */
  lemma StillOwn(c: Cluster, es: seq<Event>, i: string, j: string)
    requires Fresh(c) && IsRun(c, es) && es != []
    requires var before := Exec(c, es[..|es| - 1]);
             && i in before.nodes && (j, i) in before.rooms
             && (Sends(before, es[|es| - 1], i, j)
                 || (before.nodes[i].pending == 0 ==> LastSent(c, es[..|es| - 1], i, j) == Own(before, i)))
    ensures i in Exec(c, es).nodes
    ensures Exec(c, es).nodes[i].pending == 0 ==> LastSent(c, es, i, j) == Own(Exec(c, es), i)
  {
    StepOwn(c, es, i);
    if Sends(Exec(c, es[..|es| - 1]), es[|es| - 1], i, j) {
      StepSends(c, es, i, j);
    }
  }

  lemma {:induction false} SentIsOwnSince(c: Cluster, es: seq<Event>, i: string, j: string, a: nat, b: nat)
    requires Fresh(c) && IsRun(c, es) && JoinedAt(es, i, j, a, b)
    ensures i in Exec(c, es).nodes
    ensures Exec(c, es).nodes[i].pending == 0 ==> LastSent(c, es, i, j) == Own(Exec(c, es), i)
  {
    var init := es[..|es| - 1];
    assert init[a] == es[a];
    RoomsKept(c, init, a);
    RoomEntry(c, init, j, i);
    if b < |init| {
      assert init[b] == es[b];
      SentIsOwnSince(c, init, i, j, a, b);
    }
    StillOwn(c, es, i, j);
  }

  /** After the join, a node with nothing left to publish has sent its peer exactly what it holds. */
  lemma SentIsOwn(c: Cluster, es: seq<Event>, i: string, j: string)
    requires Fresh(c) && IsRun(c, es) && Joined(es, i, j)
    ensures i in Exec(c, es).nodes
    ensures Exec(c, es).nodes[i].pending == 0 ==> LastSent(c, es, i, j) == Own(Exec(c, es), i)
  {
    var a, b :| JoinedAt(es, i, j, a, b);
    SentIsOwnSince(c, es, i, j, a, b);
  }

  // --------------------------------------------------------------- quiescence

  predicate Quiet(c: Cluster) {
    && (forall i :: i in c.nodes ==> c.nodes[i].pending == 0)
    && (forall l :: l in c.links ==> c.links[l] == [])
  }

  /** With each link one in-order queue, at rest a record is right exactly when the last report sent along that link still is. */
  lemma QuietLastSent(c: Cluster, es: seq<Event>, i: string, j: string)
    requires Fresh(c) && IsRun(c, es) && InOrder(es) && Quiet(Exec(c, es)) && i != SELF
    ensures Recorded(Exec(c, es), i, j) == Own(Exec(c, es), i)
       <==> LastSent(c, es, i, j) == Own(Exec(c, es), i)
  {
    LatestIsLastSent(c, es, i, j);
  }

  /** Quiescent agreement: with in-order delivery, once nothing is pending and
      nothing is in flight, a peer that joined the room before the snapshot was
      sent has the node's own replica table and overload flag on record. */
  lemma QuietAgreement(c: Cluster, es: seq<Event>, i: string, j: string)
    requires Fresh(c) && IsRun(c, es) && InOrder(es) && Quiet(Exec(c, es)) && i != SELF
    requires Joined(es, i, j)
    ensures Recorded(Exec(c, es), i, j) == Own(Exec(c, es), i)
  {
    QuietLastSent(c, es, i, j);
    SentIsOwn(c, es, i, j);
  }

  function OwnCounts(c: Cluster, f: string): map<string, nat>
    requires forall i :: i in c.nodes ==> SELF in c.nodes[i].nodes
  {
    map i | i in c.nodes :: Count(c.nodes[i].nodes[SELF], f)
  }

  /** The replicas of f the nodes of the cluster actually hold. */
  ghost function ClusterTotal(c: Cluster, f: string): nat
    requires forall i :: i in c.nodes ==> SELF in c.nodes[i].nodes
  {
    Sum(OwnCounts(c, f))
  }

  /** The counts of f that node j has on record, its own left out. */
  lemma RecordedCounts(c: Cluster, j: string, f: string)
    requires Topology(c) && j in c.nodes
    requires forall i :: i in c.nodes && i != j ==>
               i in c.nodes[j].nodes && Recorded(c, i, j) == Own(c, i)
    ensures Counts(c.nodes[j].nodes, f) - {SELF} == OwnCounts(c, f) - {j}
  {
    var m, m' := Counts(c.nodes[j].nodes, f) - {SELF}, OwnCounts(c, f) - {j};
    forall i | i in m' ensures i in m && m[i] == m'[i] {
      assert ReportOf(c.nodes[j].nodes[i]) == ReportOf(c.nodes[i].nodes[SELF]);
    }
    forall i | i in m ensures i in m' {
      assert Peers(c, i, j);
    }
  }

  lemma RecordsGiveTotal(c: Cluster, j: string, f: string)
    requires Topology(c) && j in c.nodes
    requires forall i :: i in c.nodes && i != j ==>
               i in c.nodes[j].nodes && Recorded(c, i, j) == Own(c, i)
    ensures Total(c.nodes[j].nodes, f) == ClusterTotal(c, f)
  {
    RecordedCounts(c, j, f);
    SumRename(Counts(c.nodes[j].nodes, f), OwnCounts(c, f), SELF, j);
  }

  /** A node that has every other node's own report on record holds the cluster's numbers. */
  lemma RecordsGiveAgreement(c: Cluster, j: string, f: string)
    requires ClusterInv(c) && j in c.nodes
    requires forall i :: i in c.nodes && i != j ==>
               i in c.nodes[j].nodes && Recorded(c, i, j) == Own(c, i)
    ensures f in c.nodes[j].functions ==> c.nodes[j].functions[f].replicas == ClusterTotal(c, f)
    ensures ClusterTotal(c, f) > 0 ==> f in c.nodes[j].functions
  {
    RecordsGiveTotal(c, j, f);
    TotalZero(c.nodes[j].nodes, f);
  }

  /** In a fully joined cluster at rest, every node that knows a function holds
      the same aggregate, the number of replicas in the cluster, and every
      function that runs anywhere is known everywhere. */
  lemma ClusterAgreement(c: Cluster, es: seq<Event>, j: string, f: string)
    requires Fresh(c) && IsRun(c, es) && InOrder(es) && Quiet(Exec(c, es))
    requires j in Exec(c, es).nodes
    requires forall i :: i in Exec(c, es).nodes && i != j ==> Joined(es, i, j)
    ensures forall i :: i in Exec(c, es).nodes ==> SELF in Exec(c, es).nodes[i].nodes
    ensures f in Exec(c, es).nodes[j].functions ==>
              Exec(c, es).nodes[j].functions[f].replicas == ClusterTotal(Exec(c, es), f)
    ensures ClusterTotal(Exec(c, es), f) > 0 ==> f in Exec(c, es).nodes[j].functions
  {
    var c' := Exec(c, es);
    ReachableInv(c, es);
    forall i | i in c'.nodes && i != j ensures i in c'.nodes[j].nodes && Recorded(c', i, j) == Own(c', i) {
      QuietAgreement(c, es, i, j);
      var a, b :| JoinedAt(es, i, j, a, b);
      RoomsKept(c, es, a);
      RoomEntry(c, es, j, i);
    }
    RecordsGiveAgreement(c', j, f);
  }
}
