/** Two short runs of two nodes that come to rest with a wrong record. */
module GossipLimits {
  import opened CatalogModel
  import opened Gossip
  import opened GossipTheorems
  import opened GossipOrder

  const A := "A"
  const B := "B"

  function Alone(): Catalog { Catalog(map[SELF := NO_INFO], map[], 0) }

  function TwoNodes(): Cluster { Cluster(map[A := Alone(), B := Alone()], map[], {}) }

  function Word(overload: bool): NodeInfoMsg { NodeInfoMsg([], overload) }

  lemma TwoNodesFresh()
    ensures Fresh(TwoNodes())
  {
    var c := Alone();
    forall id, f | id in c.nodes ensures Count(c.nodes[id], f) == 0 {}
    assert Inv(c);
  }

  lemma ExecMore(c: Cluster, es: seq<Event>, e: Event)
    requires IsRun(c, es) && Enabled(Exec(c, es), e)
    ensures IsRun(c, es + [e]) && Exec(c, es + [e]) == Step(Exec(c, es), e)
    ensures GossipInOrder(c, es) && KeepsGossipOrder(Exec(c, es), e) ==> GossipInOrder(c, es + [e])
  {
    assert (es + [e])[..|es + [e]| - 1] == es;
  }

  /** B knows A, A knows B; the overload flags and what A has in flight to B are as given. */
  ghost predicate Looks(c: Cluster, flag: bool, pending: nat, seen: bool, sub: bool, packets: seq<Packet>) {
    && c.nodes.Keys == {A, B}
    && c.nodes[A] == Catalog(map[SELF := NO_INFO.(overload := flag), B := NO_INFO], map[], pending)
    && c.nodes[B] == Catalog(map[SELF := NO_INFO, A := NO_INFO.(overload := seen)], map[], 0)
    && c.rooms == (if sub then {(B, A)} else {})
    && InFlight(c, A, B) == packets
    && c.links.Keys <= {(A, B)}
  }

  lemma Met(es: seq<Event>)
    requires es == [Connect(A, B), Connect(B, A)]
    ensures Reached(es, false, 0, false, false, [])
  {
    ExecMore(TwoNodes(), [], Connect(A, B));
    ExecMore(TwoNodes(), [Connect(A, B)], Connect(B, A));
    assert es == ([] + [Connect(A, B)]) + [Connect(B, A)];
  }

  lemma WordIsPack(c: Catalog, flag: bool)
    requires SELF in c.nodes && c.nodes[SELF] == NO_INFO.(overload := flag)
    ensures IsPack(c, Word(flag))
  {
  }

  lemma Snapshots(c: Cluster, flag: bool, sub: bool)
    requires Looks(c, flag, 0, false, sub, [])
    ensures var e := SendSnapshot(A, B, Word(flag));
            Enabled(c, e) && Looks(Step(c, e), flag, 0, false, sub, [Snapshot(Word(flag))])
  {
    WordIsPack(c.nodes[A], flag);
  }

  lemma Subscribes(c: Cluster, flag: bool, packets: seq<Packet>)
    requires Looks(c, flag, 0, false, false, packets)
    ensures Enabled(c, Subscribe(B, A)) && Looks(Step(c, Subscribe(B, A)), flag, 0, false, true, packets)
  {
  }

  lemma Overloads(c: Cluster, sub: bool, packets: seq<Packet>)
    requires Looks(c, false, 0, false, sub, packets)
    ensures var e := Local(A, Overload(true));
            Enabled(c, e) && Looks(Step(c, e), true, 1, false, sub, packets)
  {
  }

  lemma Publishes(c: Cluster, sub: bool, packets: seq<Packet>)
    requires Looks(c, true, 1, false, sub, packets)
    ensures var e := Publish(A, Word(true));
            && Enabled(c, e)
            && Looks(Step(c, e), true, 0, false, sub, if sub then packets + [Gossip(Word(true))] else packets)
  {
    WordIsPack(c.nodes[A], true);
    InFlightAfter(c, Publish(A, Word(true)), A, B);
  }

  lemma Delivers(c: Cluster, seen: bool, sub: bool, packets: seq<Packet>, k: nat, word: bool)
    requires Looks(c, true, 0, seen, sub, packets) && k < |packets| && packets[k].msg == Word(word)
    ensures var e := Deliver(A, B, k);
            Enabled(c, e) && Looks(Step(c, e), true, 0, word, sub, Without(packets, k))
  {
    assert TimesAfter(c.nodes[B].nodes[A], []) == map[];
    var c' := Receives(c.nodes[B], A, packets[k]);
    assert c'.functions == map[];
  }

  ghost predicate Reached(es: seq<Event>, flag: bool, pending: nat, seen: bool, sub: bool, packets: seq<Packet>) {
    && IsRun(TwoNodes(), es) && GossipInOrder(TwoNodes(), es)
    && Looks(Exec(TwoNodes(), es), flag, pending, seen, sub, packets)
  }

  lemma ReachMore(es: seq<Event>, e: Event, flag: bool, pending: nat, seen: bool, sub: bool, packets: seq<Packet>)
    requires IsRun(TwoNodes(), es) && Enabled(Exec(TwoNodes(), es), e)
    requires GossipInOrder(TwoNodes(), es) && KeepsGossipOrder(Exec(TwoNodes(), es), e)
    requires Looks(Step(Exec(TwoNodes(), es), e), flag, pending, seen, sub, packets)
    ensures Reached(es + [e], flag, pending, seen, sub, packets)
  {
    ExecMore(TwoNodes(), es, e);
  }

  lemma ReachSubscribe(es: seq<Event>, flag: bool, packets: seq<Packet>)
    requires Reached(es, flag, 0, false, false, packets)
    ensures Reached(es + [Subscribe(B, A)], flag, 0, false, true, packets)
  {
    Subscribes(Exec(TwoNodes(), es), flag, packets);
    ReachMore(es, Subscribe(B, A), flag, 0, false, true, packets);
  }

  lemma ReachSnapshot(es: seq<Event>, sub: bool)
    requires Reached(es, false, 0, false, sub, [])
    ensures Reached(es + [SendSnapshot(A, B, Word(false))], false, 0, false, sub, [Snapshot(Word(false))])
  {
    Snapshots(Exec(TwoNodes(), es), false, sub);
    ReachMore(es, SendSnapshot(A, B, Word(false)), false, 0, false, sub, [Snapshot(Word(false))]);
  }

  lemma ReachOverload(es: seq<Event>, sub: bool, packets: seq<Packet>)
    requires Reached(es, false, 0, false, sub, packets)
    ensures Reached(es + [Local(A, Overload(true))], true, 1, false, sub, packets)
  {
    Overloads(Exec(TwoNodes(), es), sub, packets);
    ReachMore(es, Local(A, Overload(true)), true, 1, false, sub, packets);
  }

  lemma ReachPublish(es: seq<Event>, sub: bool, packets: seq<Packet>)
    requires Reached(es, true, 1, false, sub, packets)
    ensures Reached(es + [Publish(A, Word(true))], true, 0, false, sub,
                    if sub then packets + [Gossip(Word(true))] else packets)
  {
    Publishes(Exec(TwoNodes(), es), sub, packets);
    ReachMore(es, Publish(A, Word(true)), true, 0, false, sub,
              if sub then packets + [Gossip(Word(true))] else packets);
  }

  lemma ReachDeliver(es: seq<Event>, seen: bool, sub: bool, packets: seq<Packet>, k: nat, word: bool)
    requires Reached(es, true, 0, seen, sub, packets) && k < |packets| && packets[k].msg == Word(word)
    requires packets[k].Gossip? ==> Gossips(packets[..k]) == []
    ensures Reached(es + [Deliver(A, B, k)], true, 0, word, sub, Without(packets, k))
  {
    Delivers(Exec(TwoNodes(), es), seen, sub, packets, k, word);
    ReachMore(es, Deliver(A, B, k), true, 0, word, sub, Without(packets, k));
  }

  /** A word from before the overload is in flight; B has joined the room, or not yet. */
  lemma StaleSnapshot(join: bool) returns (es: seq<Event>)
    ensures Reached(es, false, 0, false, join, [Snapshot(Word(false))])
    ensures InOrder(es) && (join ==> Joined(es, A, B))
  {
    es := [Connect(A, B), Connect(B, A)];
    Met(es);
    if join {
      ReachSubscribe(es, false, []);
      es := es + [Subscribe(B, A)];
    }
    var e := SendSnapshot(A, B, Word(false));
    ReachSnapshot(es, join);
    if join {
      assert JoinedAt(es + [e], A, B, 2, 3);
    }
    es := es + [e];
  }

  /** A then becomes overloaded and publishes that. */
  lemma NewWord(join: bool) returns (es: seq<Event>)
    ensures var snap := Snapshot(Word(false));
            Reached(es, true, 0, false, join, if join then [snap, Gossip(Word(true))] else [snap])
    ensures InOrder(es) && (join ==> Joined(es, A, B))
  {
    var es0 := StaleSnapshot(join);
    var snap := Snapshot(Word(false));
    ReachOverload(es0, join, [snap]);
    var es1 := es0 + [Local(A, Overload(true))];
    ReachPublish(es1, join, [snap]);
    es := es1 + [Publish(A, Word(true))];
    assert [snap] + [Gossip(Word(true))] == [snap, Gossip(Word(true))];
    if join {
      JoinedLonger(es0, es, A, B);
    }
  }

  lemma JoinedLonger(es: seq<Event>, es': seq<Event>, i: string, j: string)
    requires Joined(es, i, j) && es <= es'
    ensures Joined(es', i, j)
  {
    var a, b :| JoinedAt(es, i, j, a, b);
    assert es'[a] == es[a] && es'[b] == es[b];
    assert JoinedAt(es', i, j, a, b);
  }

  lemma AtRest(c: Cluster)
    requires Looks(c, true, 0, false, true, [])
    ensures Quiet(c) && Recorded(c, A, B) != Own(c, A)
  {
    assert c.nodes[B].nodes[A].overload == false && c.nodes[A].nodes[SELF].overload;
    forall l | l in c.links ensures c.links[l] == [] {
      assert l == (A, B);
    }
  }

  lemma GossipFirst(es: seq<Event>, snap: Packet, word: Packet)
    requires snap == Snapshot(Word(false)) && word == Gossip(Word(true))
    requires Reached(es, true, 0, false, true, [snap, word])
    ensures Reached(es + [Deliver(A, B, 1)], true, 0, true, true, [snap])
  {
    GossipsOne(snap);
    assert [snap, word][..1] == [snap];
    assert Without([snap, word], 1) == [snap];
    ReachDeliver(es, false, true, [snap, word], 1, true);
  }

  lemma ThenSnapshot(es: seq<Event>, seen: bool, snap: Packet)
    requires snap == Snapshot(Word(false)) && Reached(es, true, 0, seen, true, [snap])
    ensures Reached(es + [Deliver(A, B, 0)], true, 0, false, true, [])
  {
    assert Without([snap], 0) == [];
    ReachDeliver(es, seen, true, [snap], 0, false);
  }

  lemma OvertakenRun() returns (es: seq<Event>)
    ensures Reached(es, true, 0, false, true, []) && Joined(es, A, B)
  {
    var es0 := NewWord(true);
    var snap, word := Snapshot(Word(false)), Gossip(Word(true));
    GossipFirst(es0, snap, word);
    ThenSnapshot(es0 + [Deliver(A, B, 1)], true, snap);
    es := es0 + [Deliver(A, B, 1)] + [Deliver(A, B, 0)];
    JoinedLonger(es0, es, A, B);
  }

  lemma MissedRun() returns (es: seq<Event>)
    ensures Reached(es, true, 0, false, true, []) && InOrder(es)
  {
    var es0 := NewWord(false);
    var snap := Snapshot(Word(false));
    ReachSubscribe(es0, true, [snap]);
    var es1 := es0 + [Subscribe(B, A)];
    ThenSnapshot(es1, false, snap);
    es := es1 + [Deliver(A, B, 0)];
  }

  lemma WrongAtRest(es: seq<Event>)
    requires Reached(es, true, 0, false, true, [])
    ensures IsRun(TwoNodes(), es) && GossipInOrder(TwoNodes(), es) && Quiet(Exec(TwoNodes(), es))
    ensures (B, A) in Exec(TwoNodes(), es).rooms
    ensures Recorded(Exec(TwoNodes(), es), A, B) != Own(Exec(TwoNodes(), es), A)
  {
    AtRest(Exec(TwoNodes(), es));
  }

  /** Joined in time and all gossip in order, but the snapshot is overtaken by a
      newer publish: at rest the peer is wrong. */
  lemma OvertakenSnapshot() returns (es: seq<Event>)
    ensures Fresh(TwoNodes()) && IsRun(TwoNodes(), es) && Joined(es, A, B) && Quiet(Exec(TwoNodes(), es))
    ensures GossipInOrder(TwoNodes(), es)
    ensures Recorded(Exec(TwoNodes(), es), A, B) != Own(Exec(TwoNodes(), es), A)
  {
    TwoNodesFresh();
    es := OvertakenRun();
    WrongAtRest(es);
  }

  /** Delivered in order, but the room is joined after the snapshot: a publish in between is missed. */
  lemma MissedPublish() returns (es: seq<Event>)
    ensures Fresh(TwoNodes()) && IsRun(TwoNodes(), es) && InOrder(es) && Quiet(Exec(TwoNodes(), es))
    ensures (B, A) in Exec(TwoNodes(), es).rooms
    ensures Recorded(Exec(TwoNodes(), es), A, B) != Own(Exec(TwoNodes(), es), A)
  {
    TwoNodesFresh();
    es := MissedRun();
    WrongAtRest(es);
  }
}
