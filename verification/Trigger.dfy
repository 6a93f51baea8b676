/** The trigger handler (MakeTriggerHandler in pkg/provider/handlers/trigger.go)
    on one node's catalog, and the way of a request through the cluster. */
module Trigger {
  import opened CatalogModel
  import opened CatalogEffects
  import opened Strings
  import opened CatalogStore
  import opened Scheduler
  import opened Placement

  datatype Request = Request(name: string, query: seq<(string, string)>)

  /** The first value of a query key, or the empty string. */
  function QueryGet(query: seq<(string, string)>, key: string): (value: string)
    ensures (forall i :: 0 <= i < |query| ==> query[i].0 != key) ==> value == ""
    ensures forall i :: 0 <= i < |query| && query[i].0 == key && (forall j :: 0 <= j < i ==> query[j].0 != key) ==>
              value == query[i].1
  {
    if query == [] then ""
    else if query[0].0 == key then query[0].1
    else QueryGet(query[1..], key)
  }

  predicate IsOffload(r: Request) { QueryGet(r.query, "offload") == "1" }

  /** A request is offloaded exactly when the first value it gives for offload is 1. */
  lemma OffloadIff(r: Request)
    ensures IsOffload(r) <==> exists i :: 0 <= i < |r.query| && r.query[i] == ("offload", "1")
                                       && forall j :: 0 <= j < i ==> r.query[j].0 != "offload"
  {
    if forall i :: 0 <= i < |r.query| ==> r.query[i].0 != "offload" {
    } else {
      var i := FirstKey(r.query, "offload");
      assert QueryGet(r.query, "offload") == r.query[i].1;
    }
  }

  lemma {:induction false} FirstKey(query: seq<(string, string)>, key: string) returns (i: nat)
    requires exists k :: 0 <= k < |query| && query[k].0 == key
    ensures i < |query| && query[i].0 == key && forall j :: 0 <= j < i ==> query[j].0 != key
  {
    i := 0;
    while query[i].0 != key
      invariant i < |query| && forall j :: 0 <= j < i ==> query[j].0 != key
      invariant exists k :: i <= k < |query| && query[k].0 == key
      decreases |query| - i
    {
      i := i + 1;
    }
  }

  /** Marking replaces the whole query. */
  function MarkOffload(r: Request): (r': Request)
    ensures IsOffload(r') && r'.name == r.name
    ensures forall q :: q in r'.query ==> q == ("offload", "1")
  {
    r.(query := [("offload", "1")])
  }

  datatype Action = Deploy(on: string) | Invoke(on: string, request: Request) | Explore(on: string)

  datatype Result = NotFound | DeployFailed | Crashed | Served

  datatype Message = Message(from: string, msg: NodeInfoMsg)

  /** What happens outside while a request is handled. nan: what the platform
      converts not-a-number to; ready: the status of the function deployed, if it
      came up in time; arrivals: the messages of peers that come in until the
      answer; measured: how long an answer worth recording took. */
  datatype World = World(nan: nat, ready: Option<FunctionStatus>, arrivals: seq<Message>, measured: Option<nat>)

  /** The messages come from peers on record, and the status is of the function asked for. */
  predicate Fits(w: World, nodes: map<string, NodeInfo>, f: string) {
    && (forall k :: 0 <= k < |w.arrivals| ==> w.arrivals[k].from in nodes && w.arrivals[k].from != SELF)
    && (w.ready.Some? ==> w.ready.value.name == f)
  }

  /** What handling a request needs of a catalog; the invariant gives the first two. */
  predicate Ready(store: Store)
    reads store
  {
    store.Valid() && Timed(store.nodeCatalog) && Ranked(store) && "" !in store.nodeCatalog
  }

  // ------------------------------------------------------------------ the new state

  ghost function ReceiveAll(c: Catalog, ms: seq<Message>): (c': Catalog)
    requires forall k :: 0 <= k < |ms| ==> ms[k].from in c.nodes
    ensures c'.nodes.Keys == c.nodes.Keys
  {
    if ms == [] then c
    else Unpack(ReceiveAll(c, ms[..|ms| - 1]), ms[|ms| - 1].from, ms[|ms| - 1].msg)
  }

  lemma {:induction false} ReceiveAllKeepsInv(c: Catalog, ms: seq<Message>)
    requires Inv(c) && forall k :: 0 <= k < |ms| ==> ms[k].from in c.nodes && ms[k].from != SELF
    ensures Inv(ReceiveAll(c, ms))
  {
    if ms != [] {
      var init := ms[..|ms| - 1];
      ReceiveAllKeepsInv(c, init);
      UnpackKeepsInv(ReceiveAll(c, init), ms[|ms| - 1].from, ms[|ms| - 1].msg);
    }
  }

  lemma {:induction false} ReceiveAllKeepsTimed(c: Catalog, ms: seq<Message>)
    requires Timed(c.nodes) && forall k :: 0 <= k < |ms| ==> ms[k].from in c.nodes
    ensures Timed(ReceiveAll(c, ms).nodes)
  {
    if ms != [] {
      var init, last := ms[..|ms| - 1], ms[|ms| - 1];
      ReceiveAllKeepsTimed(c, init);
      AbsorbHasTimes(ReceiveAll(c, init).nodes[last.from], last.msg);
    }
  }

  /** A message from id says that it runs f. */
  predicate ReportsRunning(ms: seq<Message>, id: string, f: string) {
    exists k :: 0 <= k < |ms| && ms[k].from == id && f in RunningNames(ms[k].msg.functions)
  }

  /** Messages give a node a time for f exactly by reporting that it runs f, and take none away. */
  lemma {:induction false} TimesAfterArrivals(c: Catalog, ms: seq<Message>, id: string, f: string)
    requires id in c.nodes && forall k :: 0 <= k < |ms| ==> ms[k].from in c.nodes
    ensures f in ReceiveAll(c, ms).nodes[id].execTime <==>
            f in c.nodes[id].execTime || ReportsRunning(ms, id, f)
  {
    if ms != [] {
      var init, last := ms[..|ms| - 1], ms[|ms| - 1];
      TimesAfterArrivals(c, init, id, f);
      assert forall k :: 0 <= k < |init| ==> init[k] == ms[k];
      assert ReportsRunning(ms, id, f) <==>
             ReportsRunning(init, id, f) || (last.from == id && f in RunningNames(last.msg.functions)) by {
        if ReportsRunning(init, id, f) {
          var k :| 0 <= k < |init| && init[k].from == id && f in RunningNames(init[k].msg.functions);
          assert ms[k].from == id;
        }
      }
    }
  }

  /** The catalog when the request goes out: the times are reset if the weights
      were refused, and a replica deployed here is on record. */
  ghost function Prepared(c: Catalog, ids: seq<string>, r: Request, target: string, w: World): Catalog
    requires SELF in c.nodes && Timed(c.nodes) && forall i :: 0 <= i < |ids| ==> ids[i] in c.nodes
  {
    if IsOffload(r) then c
    else if Refuses(c.nodes, r.name, w.nan) then c.(nodes := ResetTimes(c.nodes, r.name))
    else if MustDeploy(c.nodes, ids, r.name) && target == SELF && w.ready.Some? then AddFunction(c, w.ready.value)
    else c
  }

  /** The catalog after the answer: what came in, and the measurement if there is a time to average with. */
  ghost function Answered(c: Catalog, f: string, target: string, w: World): Catalog
    requires Timed(c.nodes) && Fits(w, c.nodes, f) && target in c.nodes
  {
    ReceiveAllKeepsTimed(c, w.arrivals);
    var c' := ReceiveAll(c, w.arrivals);
    assert HasTimes(c'.nodes[target]);
    if w.measured.Some? && f in c'.nodes[target].execTime
    then c'.(nodes := Measure(c'.nodes, target, f, c'.nodes[target].execTime[f], w.measured.value))
    else c'
  }

  /** The answer's measurement moves the target's time, if it has one by then;
      apart from that the catalog is what the messages make of it. */
  lemma AnsweredEffect(c: Catalog, f: string, target: string, w: World)
    requires Timed(c.nodes) && Fits(w, c.nodes, f) && target in c.nodes
    ensures var c', c'' := ReceiveAll(c, w.arrivals), Answered(c, f, target, w);
            && c''.functions == c'.functions && c''.pending == c'.pending
            && OnlyTimeOf(c'.nodes, c''.nodes, target, f)
            && (f in c''.nodes[target].execTime <==> f in c'.nodes[target].execTime)
            && (f in c'.nodes[target].execTime ==>
                  if w.measured.Some?
                  then ExecTime.Moves(c'.nodes[target].execTime[f], w.measured.value, c''.nodes[target].execTime[f])
                  else c''.nodes[target].execTime[f] == c'.nodes[target].execTime[f])
  {
    ReceiveAllKeepsTimed(c, w.arrivals);
    var c' := ReceiveAll(c, w.arrivals);
    assert HasTimes(c'.nodes[target]);
    if w.measured.Some? && f in c'.nodes[target].execTime {
      MeasureEffect(c'.nodes, target, f, c'.nodes[target].execTime[f], w.measured.value);
    }
  }

  /** Until the request goes out the catalog changes in two cases only: a refusal
      resets the holders' times, and a deployment here is added. */
  lemma PreparedEffect(c: Catalog, ids: seq<string>, r: Request, target: string, w: World)
    requires SELF in c.nodes && Timed(c.nodes) && forall i :: 0 <= i < |ids| ==> ids[i] in c.nodes
    ensures var c' := Prepared(c, ids, r, target, w);
            if !IsOffload(r) && Refuses(c.nodes, r.name, w.nan)
            then HoldersReset(c.nodes, r.name, c'.nodes) && c'.functions == c.functions && c'.pending == c.pending
            else if !IsOffload(r) && MustDeploy(c.nodes, ids, r.name) && target == SELF && w.ready.Some?
            then Added(c, w.ready.value, c')
            else c' == c
  {
    ResetEffect(c.nodes, r.name);
    if w.ready.Some? {
      AddEffect(c, w.ready.value);
    }
  }

  lemma PreparedIs(c: Catalog, ids: seq<string>, r: Request, target: string, w: World)
    requires SELF in c.nodes && Timed(c.nodes) && forall i :: 0 <= i < |ids| ==> ids[i] in c.nodes
    ensures var c' := Prepared(c, ids, r, target, w);
            || c' == c
            || c' == c.(nodes := ResetTimes(c.nodes, r.name))
            || (w.ready.Some? && c' == AddFunction(c, w.ready.value))
    ensures Prepared(c, ids, r, target, w).nodes.Keys == c.nodes.Keys
  {
  }

  lemma PreparedKeepsTimed(c: Catalog, ids: seq<string>, r: Request, target: string, w: World)
    requires SELF in c.nodes && Timed(c.nodes) && forall i :: 0 <= i < |ids| ==> ids[i] in c.nodes
    ensures Timed(Prepared(c, ids, r, target, w).nodes) && Prepared(c, ids, r, target, w).nodes.Keys == c.nodes.Keys
  {
    PreparedIs(c, ids, r, target, w);
    ResetKeepsTimes(c.nodes, r.name);
    if w.ready.Some? {
      AddKeepsTimed(c, w.ready.value);
    }
  }

  lemma AddKeepsTimed(c: Catalog, fs: FunctionStatus)
    requires SELF in c.nodes && Timed(c.nodes)
    ensures Timed(AddFunction(c, fs).nodes)
  {
    assert HasTimes(c.nodes[SELF]);
  }

  lemma PreparedKeepsInv(c: Catalog, ids: seq<string>, r: Request, target: string, w: World)
    requires Inv(c) && forall i :: 0 <= i < |ids| ==> ids[i] in c.nodes
    ensures Inv(Prepared(c, ids, r, target, w)) && Prepared(c, ids, r, target, w).nodes.Keys == c.nodes.Keys
  {
    PreparedIs(c, ids, r, target, w);
    ResetKeepsInv(c, r.name);
    if w.ready.Some? {
      AddKeepsInv(c, w.ready.value);
    }
  }

  // ------------------------------------------------------------------- the crash

  /** The target has no time for f by the end of the request. */
  predicate NeverTimed(nodes: map<string, NodeInfo>, target: string, f: string, w: World) {
    target in nodes && f !in nodes[target].execTime && !ReportsRunning(w.arrivals, target, f)
  }

  /** The handler dereferences nothing. An offloaded request does so when its
      measurement has no time to go to; another one when it is placed on no node,
      or on a node without a time, which a deployment here provides. */
  ghost predicate Crashes(c: Catalog, ids: seq<string>, r: Request, target: string, w: World)
    requires Timed(c.nodes) && forall i :: 0 <= i < |ids| ==> ids[i] in c.nodes
  {
    && r.name in c.functions
    && if IsOffload(r) then w.measured.Some? && NeverTimed(c.nodes, SELF, r.name, w)
       else if target == "" then true
       else if MustDeploy(c.nodes, ids, r.name) && (w.ready.None? || target == SELF) then false
       else NeverTimed(c.nodes, target, r.name, w)
  }

  /** When the request goes out, its target has a time exactly if it had one or just got the replica here. */
  lemma PreparedTimes(c: Catalog, ids: seq<string>, r: Request, target: string, w: World)
    requires SELF in c.nodes && Timed(c.nodes) && target in c.nodes && forall i :: 0 <= i < |ids| ==> ids[i] in c.nodes
    requires w.ready.Some? ==> w.ready.value.name == r.name
    ensures Prepared(c, ids, r, target, w).nodes.Keys == c.nodes.Keys
    ensures r.name in Prepared(c, ids, r, target, w).nodes[target].execTime <==>
            || r.name in c.nodes[target].execTime
            || (!IsOffload(r) && MustDeploy(c.nodes, ids, r.name) && target == SELF && w.ready.Some?)
  {
    assert HasTimes(c.nodes[target]);
    if MustDeploy(c.nodes, ids, r.name) {
      NoneIsNotRefused(c.nodes, r.name, w.nan);
    }
  }

  /** Given where the request is placed, the crash in terms of the catalog before
      the call: nobody holds a replica and all ranked nodes are overloaded; or the
      weights are refused and this node never had a time; or a peer was deployed
      to that never had one and has not reported yet. A holder chosen by weight
      never crashes the handler. */
  lemma CrashIff(c: Catalog, ids: seq<string>, r: Request, target: string, w: World)
    requires SELF in c.nodes && Timed(c.nodes) && Fits(w, c.nodes, r.name) && "" !in c.nodes
    requires forall i :: 0 <= i < |ids| ==> ids[i] in c.nodes
    requires r.name in c.functions && !IsOffload(r) && Places(c.nodes, ids, r.name, w.nan, target)
    ensures Crashes(c, ids, r, target, w) <==>
            if Eligible(c.nodes, r.name) != map[]
            then Refuses(c.nodes, r.name, w.nan) && r.name !in c.nodes[SELF].execTime
            else AllOverloaded(ids, c.nodes)
                 || (w.ready.Some? && target != SELF && NeverTimed(c.nodes, target, r.name, w))
  {
    if Eligible(c.nodes, r.name) != map[] {
      assert target in c.nodes && HasTimes(c.nodes[target]);
    }
  }

  /** Two holders a hundred thousand times apart, and this node without a time: every request crashes. */
  lemma FallbackCrashes(c: Catalog, ids: seq<string>, r: Request, target: string, w: World)
    requires c.nodes == SLOW_AND_FAST && "f" in c.functions && forall i :: 0 <= i < |ids| ==> ids[i] in c.nodes
    requires r.name == "f" && !IsOffload(r) && Fits(w, c.nodes, "f")
    requires Timed(c.nodes) && Places(c.nodes, ids, "f", w.nan, target)
    ensures target == SELF && Crashes(c, ids, r, target, w)
  {
    FallbackWithoutReplica(w.nan);
    NoneIsNotRefusedContra(c.nodes, "f", w.nan);
  }

  lemma NoneIsNotRefusedContra(nodes: map<string, NodeInfo>, f: string, nan: nat)
    requires Timed(nodes) && Refuses(nodes, f, nan)
    ensures Eligible(nodes, f) != map[]
  {
    if Eligible(nodes, f) == map[] {
      NoneIsNotRefused(nodes, f, nan);
    }
  }

  // ------------------------------------------------------------------ the handler

  method ReceiveMessages(store: Store, ms: seq<Message>)
    requires store.Valid() && forall k :: 0 <= k < |ms| ==> ms[k].from in store.nodeCatalog
    modifies store`nodeCatalog, store`functionCatalog
    ensures store.View() == ReceiveAll(old(store.View()), ms)
  {
    for i := 0 to |ms|
      invariant store.View() == ReceiveAll(old(store.View()), ms[..i])
    {
      assert ms[..i + 1][..i] == ms[..i];
      store.UnpackNodeInfoMsg(ms[i].from, ms[i].msg);
    }
    assert ms[..|ms|] == ms;
  }

  /** While the request is answered messages come in; then the answer is timed.
      Fails exactly when there is a measurement and no time to average it with. */
  method Answer(store: Store, f: string, target: string, w: World) returns (ok: bool)
    requires store.Valid() && Timed(store.nodeCatalog) && Fits(w, store.nodeCatalog, f) && target in store.nodeCatalog
    modifies store`nodeCatalog, store`functionCatalog
    ensures store.View() == Answered(old(store.View()), f, target, w)
    ensures f in store.nodeCatalog[target].execTime <==>
            f in old(store.nodeCatalog)[target].execTime || ReportsRunning(w.arrivals, target, f)
    ensures ok <==> w.measured.None? || f in store.nodeCatalog[target].execTime
  {
    ReceiveMessages(store, w.arrivals);
    ReceiveAllKeepsTimed(old(store.View()), w.arrivals);
    TimesAfterArrivals(old(store.View()), w.arrivals, target, f);
    ok := true;
    if w.measured.Some? {
      ok := store.RecordTime(target, f, w.measured.value);
    }
  }

  lemma AnsweredKeepsTimed(c: Catalog, f: string, target: string, w: World)
    requires Timed(c.nodes) && Fits(w, c.nodes, f) && target in c.nodes
    ensures Timed(Answered(c, f, target, w).nodes) && Answered(c, f, target, w).nodes.Keys == c.nodes.Keys
  {
    ReceiveAllKeepsTimed(c, w.arrivals);
    var c' := ReceiveAll(c, w.arrivals);
    assert HasTimes(c'.nodes[target]);
  }

  lemma AnsweredKeepsInv(c: Catalog, f: string, target: string, w: World)
    requires Inv(c) && Fits(w, c.nodes, f) && target in c.nodes
    ensures Inv(Answered(c, f, target, w)) && Answered(c, f, target, w).nodes.Keys == c.nodes.Keys
  {
    ReceiveAllKeepsInv(c, w.arrivals);
    var c' := ReceiveAll(c, w.arrivals);
    assert HasTimes(c'.nodes[target]);
    if w.measured.Some? && f in c'.nodes[target].execTime {
      MeasureKeepsInv(c', target, f, c'.nodes[target].execTime[f], w.measured.value);
    }
  }

  /** An offloaded request is answered here and nowhere else: nothing is placed,
      deployed or explored, and of the catalog only the time is touched. */
  method HandleOffloaded(store: Store, r: Request, w: World) returns (result: Result, actions: seq<Action>)
    requires Ready(store) && Fits(w, store.nodeCatalog, r.name)
    modifies store`nodeCatalog, store`functionCatalog
    ensures Ready(store) && store.nodeCatalog.Keys == old(store.nodeCatalog.Keys)
    ensures actions == [Invoke(SELF, r)]
    ensures store.View() == Answered(old(store.View()), r.name, SELF, w)
    ensures result == if w.measured.Some? && NeverTimed(old(store.nodeCatalog), SELF, r.name, w) then Crashed else Served
  {
    actions := [Invoke(SELF, r)];
    AnsweredKeepsTimed(store.View(), r.name, SELF, w);
    var ok := Answer(store, r.name, SELF, w);
    result := if ok then Served else Crashed;
  }

  /** The request as it is sent to the target. */
  function Sent(r: Request, target: string): (r': Request)
    ensures r'.name == r.name
    ensures target == SELF ==> r'.query == r.query
    ensures target != SELF ==> IsOffload(r')
  {
    if target == SELF then r else MarkOffload(r)
  }

  /** What the handler did with a request it placed itself: a deployment exactly
      when one was needed, then the invocation of the target, then at most one
      exploration, of the node the catalog at the end suggests. */
  ghost predicate IsTrace(must: bool, r: Request, target: string, result: Result, actions: seq<Action>,
                          ids: seq<string>, nodes: map<string, NodeInfo>)
    requires forall i :: 0 <= i < |ids| ==> ids[i] in nodes
  {
    var first := if must then [Deploy(target)] else [];
    if target == "" || result.DeployFailed? then actions == first
    else if result.Crashed? then actions == first + [Invoke(target, Sent(r, target))]
    else
      && target in nodes && r.name in nodes[target].execTime
      && exists e :: Explores(ids, nodes, r.name, nodes[target].execTime[r.name], e)
                  && actions == first + [Invoke(target, Sent(r, target))] + ExploreActions(e)
  }

  function ExploreActions(e: Exploration): (actions: seq<Action>)
    ensures e.Try? ==> |actions| == 1 && Explore(e.id) in actions
    ensures !e.Try? ==> |actions| == 0
  {
    if e.Try? then [Explore(e.id)] else []
  }

  /** The end of a request placed on a node: the answer, then the exploration. */
  method Finish(store: Store, r: Request, target: string, w: World) returns (ok: bool, explored: Exploration)
    requires Ready(store) && Fits(w, store.nodeCatalog, r.name) && target in store.nodeCatalog
    modifies store`nodeCatalog, store`functionCatalog
    ensures Ready(store) && store.View() == Answered(old(store.View()), r.name, target, w)
    ensures store.nodeCatalog.Keys == old(store.nodeCatalog.Keys)
    ensures ok <==> r.name in store.nodeCatalog[target].execTime
    ensures ok <==> !NeverTimed(old(store.nodeCatalog), target, r.name, w)
    ensures ok ==> Explores(store.sortedP2PID, store.nodeCatalog, r.name,
                            store.nodeCatalog[target].execTime[r.name], explored)
  {
    AnsweredKeepsTimed(store.View(), r.name, target, w);
    ok := Answer(store, r.name, target, w);
    assert store.nodeCatalog.Keys == old(store.nodeCatalog.Keys);
    explored := Missing;
    if ok {
      explored := ExplorePotentialNode(store, target, r.name);
      ok := !explored.Missing?;
    }
  }

  /** Placement and, if need be, deployment. */
  method Prepare(store: Store, r: Request, w: World) returns (target: string, must: bool, ok: bool)
    requires store.Valid() && Timed(store.nodeCatalog) && Ranked(store) && !IsOffload(r)
    modifies store`nodeCatalog, store`functionCatalog, store`pending
    ensures Places(old(store.nodeCatalog), store.sortedP2PID, r.name, w.nan, target)
    ensures must <==> MustDeploy(old(store.nodeCatalog), store.sortedP2PID, r.name)
    ensures ok <==> !must || w.ready.Some?
    ensures store.View() == Prepared(old(store.View()), store.sortedP2PID, r, target, w)
  {
    target, must := FindSuitableNode(store, r.name, w.nan);
    ok := true;
    if must {
      NoneIsNotRefused(old(store.nodeCatalog), r.name, w.nan);
      ok := w.ready.Some?;
      if ok && target == SELF {
        store.AddAvailableFunctions(w.ready.value);
      }
    }
  }

  lemma PlacedOnNode(nodes: map<string, NodeInfo>, ids: seq<string>, f: string, nan: nat, id: string)
    requires Timed(nodes) && SELF in nodes && forall i :: 0 <= i < |ids| ==> ids[i] in nodes
    requires Places(nodes, ids, f, nan, id)
    ensures id == "" || id in nodes
    ensures "" !in nodes ==> (id == "" <==> Eligible(nodes, f) == map[] && AllOverloaded(ids, nodes))
  {
  }

  /** On a node the handler crashes exactly when that node has no time in the end. */
  lemma CrashesOnNode(c: Catalog, ids: seq<string>, r: Request, target: string, w: World)
    requires SELF in c.nodes && Timed(c.nodes) && forall i :: 0 <= i < |ids| ==> ids[i] in c.nodes
    requires r.name in c.functions && !IsOffload(r) && target in c.nodes && target != ""
    requires MustDeploy(c.nodes, ids, r.name) ==> w.ready.Some?
    requires w.ready.Some? ==> w.ready.value.name == r.name
    ensures Crashes(c, ids, r, target, w) <==> NeverTimed(Prepared(c, ids, r, target, w).nodes, target, r.name, w)
  {
    PreparedTimes(c, ids, r, target, w);
  }

  /** The catalog in the end. */
  ghost predicate EndsAs(c: Catalog, ids: seq<string>, r: Request, target: string, w: World, result: Result, c': Catalog)
    requires SELF in c.nodes && Timed(c.nodes) && forall i :: 0 <= i < |ids| ==> ids[i] in c.nodes
  {
    var p := Prepared(c, ids, r, target, w);
    if target == "" || result.DeployFailed? then c' == p
    else Timed(p.nodes) && Fits(w, p.nodes, r.name) && target in p.nodes && c' == Answered(p, r.name, target, w)
  }

  /** A request the handler places itself. */
  method HandlePlaced(store: Store, r: Request, w: World)
    returns (result: Result, target: string, actions: seq<Action>)
    requires Ready(store) && Fits(w, store.nodeCatalog, r.name)
    requires r.name in store.functionCatalog && !IsOffload(r)
    modifies store`nodeCatalog, store`functionCatalog, store`pending
    ensures Ready(store) && store.nodeCatalog.Keys == old(store.nodeCatalog.Keys)
    ensures Places(old(store.nodeCatalog), store.sortedP2PID, r.name, w.nan, target)
    ensures result != NotFound
    ensures result.DeployFailed? <==> MustDeploy(old(store.nodeCatalog), store.sortedP2PID, r.name) && w.ready.None?
    ensures result.Crashed? <==> Crashes(old(store.View()), store.sortedP2PID, r, target, w)
    ensures IsTrace(MustDeploy(old(store.nodeCatalog), store.sortedP2PID, r.name), r, target, result, actions,
                    store.sortedP2PID, store.nodeCatalog)
    ensures EndsAs(old(store.View()), store.sortedP2PID, r, target, w, result, store.View())
  {
    ghost var c := store.View();
    var must, ok;
    target, must, ok := Prepare(store, r, w);
    PreparedKeepsTimed(c, store.sortedP2PID, r, target, w);
    PlacedOnNode(c.nodes, store.sortedP2PID, r.name, w.nan, target);
    actions := if must then [Deploy(target)] else [];
    if !ok {
      result := DeployFailed;
      return;
    }
    if target !in store.nodeCatalog {
      result := Crashed;
      return;
    }
    CrashesOnNode(c, store.sortedP2PID, r, target, w);
    actions := actions + [Invoke(target, Sent(r, target))];
    var explored;
    ok, explored := Finish(store, r, target, w);
    if !ok {
      result := Crashed;
      return;
    }
    result := Served;
    actions := actions + ExploreActions(explored);
  }

  /** The handler. An unknown function changes nothing; an offloaded request is
      answered here, and nothing else is done; any other request is placed. It
      crashes exactly when Crashes says so. */
  method Handle(store: Store, r: Request, w: World) returns (result: Result, target: string, actions: seq<Action>)
    requires Ready(store) && Fits(w, store.nodeCatalog, r.name)
    modifies store`nodeCatalog, store`functionCatalog, store`pending
    ensures Ready(store) && store.nodeCatalog.Keys == old(store.nodeCatalog.Keys)
    ensures result.NotFound? <==> r.name !in old(store.functionCatalog)
    ensures result.NotFound? ==> store.View() == old(store.View()) && actions == []
    ensures result.Crashed? <==> Crashes(old(store.View()), store.sortedP2PID, r, target, w)
    ensures IsOffload(r) && !result.NotFound? ==>
              actions == [Invoke(SELF, r)] && store.View() == Answered(old(store.View()), r.name, SELF, w)
    ensures result.DeployFailed? <==> !IsOffload(r) && !result.NotFound? && w.ready.None?
                                      && MustDeploy(old(store.nodeCatalog), store.sortedP2PID, r.name)
    ensures !IsOffload(r) && !result.NotFound? ==>
              && Places(old(store.nodeCatalog), store.sortedP2PID, r.name, w.nan, target)
              && IsTrace(MustDeploy(old(store.nodeCatalog), store.sortedP2PID, r.name), r, target, result, actions,
                         store.sortedP2PID, store.nodeCatalog)
              && EndsAs(old(store.View()), store.sortedP2PID, r, target, w, result, store.View())
  {
    target := SELF;
    if r.name !in store.functionCatalog {
      result, actions := NotFound, [];
    } else if IsOffload(r) {
      result, actions := HandleOffloaded(store, r, w);
    } else {
      result, target, actions := HandlePlaced(store, r, w);
    }
  }

  // ------------------------------------------------------------ through the cluster

  /** The peer a request is sent on to. */
  function NextHop(actions: seq<Action>): (hop: Option<Action>)
    ensures hop.Some? ==> hop.value in actions && hop.value.Invoke? && hop.value.on != SELF
    ensures hop.None? ==> forall a :: a in actions && a.Invoke? ==> a.on == SELF
  {
    if actions == [] then None
    else if actions[0].Invoke? && actions[0].on != SELF then Some(actions[0])
    else NextHop(actions[1..])
  }

  lemma SentIsMarked(must: bool, r: Request, target: string, result: Result, actions: seq<Action>,
                     ids: seq<string>, nodes: map<string, NodeInfo>, a: Action)
    requires forall i :: 0 <= i < |ids| ==> ids[i] in nodes
    requires IsTrace(must, r, target, result, actions, ids, nodes) && a in actions && a.Invoke? && a.on != SELF
    ensures a == Invoke(target, MarkOffload(r))
  {
  }

  /** One node handled the request. */
  datatype Stop = Stop(node: string, result: Result, target: string, actions: seq<Action>)

  /** The node did nothing but answer, if it could. */
  predicate OnlyAnswers(s: Stop, r: Request) {
    s.actions == (if s.result.NotFound? then [] else [Invoke(SELF, r)]) && !s.result.DeployFailed?
  }

  /** A catalog and a ranking on which a request can be handled while w happens outside. */
  predicate Handles(c: Catalog, ids: seq<string>, w: World, f: string) {
    SELF in c.nodes && Timed(c.nodes) && Fits(w, c.nodes, f) && forall i :: 0 <= i < |ids| ==> ids[i] in c.nodes
  }

  /** Node me can take a request for f; it is no peer of its own. */
  predicate CanTake(c: Catalog, ids: seq<string>, w: World, me: string, f: string) {
    Handles(c, ids, w, f) && "" !in c.nodes && me !in c.nodes
  }

  /** Different nodes have different catalog objects. */
  predicate Separate(stores: map<string, Store>) {
    forall k, l :: k in stores && l in stores && stores[k] == stores[l] ==> k == l
  }

  ghost function Views(stores: map<string, Store>): map<string, Catalog>
    reads stores.Values
  {
    map k | k in stores :: stores[k].View()
  }

  ghost function Ranks(stores: map<string, Store>): map<string, seq<string>>
    reads stores.Values
  {
    map k | k in stores :: stores[k].sortedP2PID
  }

  /** What an offloaded request leaves of a catalog: messages and the measurement. */
  ghost predicate OnlyAnswered(c: Catalog, r: Request, w: World, c': Catalog) {
    c' == c || (Timed(c.nodes) && Fits(w, c.nodes, r.name) && SELF in c.nodes && c' == Answered(c, r.name, SELF, w))
  }

  /** All that Handle says of one node: its catalog went from c to c'. */
  ghost predicate HandledAt(c: Catalog, ids: seq<string>, r: Request, w: World, s: Stop, c': Catalog) {
    && Handles(c, ids, w, r.name) && Handles(c', ids, w, r.name) && c'.nodes.Keys == c.nodes.Keys
    && (s.result.NotFound? <==> r.name !in c.functions)
    && (s.result.NotFound? ==> c' == c && s.actions == [])
    && (s.result.Crashed? <==> Crashes(c, ids, r, s.target, w))
    && (s.result.DeployFailed? <==>
          !IsOffload(r) && !s.result.NotFound? && w.ready.None? && MustDeploy(c.nodes, ids, r.name))
    && (IsOffload(r) && !s.result.NotFound? ==> s.actions == [Invoke(SELF, r)] && c' == Answered(c, r.name, SELF, w))
    && (!IsOffload(r) && !s.result.NotFound? ==>
          && Places(c.nodes, ids, r.name, w.nan, s.target)
          && IsTrace(MustDeploy(c.nodes, ids, r.name), r, s.target, s.result, s.actions, ids, c'.nodes)
          && EndsAs(c, ids, r, s.target, w, s.result, c'))
  }

  /** The handler at one node sends the request on, marked, to the peer it placed it on or to nobody. */
  lemma HopIsMarked(c: Catalog, ids: seq<string>, r: Request, target: string, result: Result, actions: seq<Action>,
                    nan: nat, nodes: map<string, NodeInfo>, a: Action)
    requires SELF in c.nodes && Timed(c.nodes) && nodes.Keys == c.nodes.Keys
    requires forall i :: 0 <= i < |ids| ==> ids[i] in c.nodes
    requires Places(c.nodes, ids, r.name, nan, target)
    requires IsTrace(MustDeploy(c.nodes, ids, r.name), r, target, result, actions, ids, nodes)
    requires a in actions && a.Invoke? && a.on != SELF
    ensures a == Invoke(target, MarkOffload(r)) && target in c.nodes
  {
    SentIsMarked(MustDeploy(c.nodes, ids, r.name), r, target, result, actions, ids, nodes, a);
    PlacedOnNode(c.nodes, ids, r.name, nan, target);
  }

  /** The peer the request is sent on to, if it is: the only invocation on another node. */
  predicate HopOf(actions: seq<Action>, r: Request, hop: Option<string>) {
    match hop
    case None => forall a :: a in actions && a.Invoke? ==> a.on == SELF
    case Some(peer) => peer != SELF && Invoke(peer, MarkOffload(r)) in actions
                       && forall a :: a in actions && a.Invoke? && a.on != SELF ==> a == Invoke(peer, MarkOffload(r))
  }

  lemma HandledHop(c: Catalog, ids: seq<string>, r: Request, w: World, s: Stop, c': Catalog) returns (hop: Option<string>)
    requires HandledAt(c, ids, r, w, s, c')
    ensures HopOf(s.actions, r, hop) && (hop.Some? ==> hop.value in c.nodes)
    ensures IsOffload(r) ==> hop.None?
  {
    hop := None;
    if a :| a in s.actions && a.Invoke? && a.on != SELF {
      hop := Some(s.target);
      forall b | b in s.actions && b.Invoke? && b.on != SELF
        ensures b == Invoke(s.target, MarkOffload(r)) && s.target in c.nodes
      {
        HopIsMarked(c, ids, r, s.target, s.result, s.actions, w.nan, c'.nodes, b);
      }
    }
  }

  /** The handler at node me, and the peer it sends the request on to. */
  method HandleAt(store: Store, me: string, r: Request, w: World) returns (stop: Stop, hop: Option<string>)
    requires CanTake(store.View(), store.sortedP2PID, w, me, r.name)
    modifies store`nodeCatalog, store`functionCatalog, store`pending
    ensures CanTake(store.View(), store.sortedP2PID, w, me, r.name) && stop.node == me
    ensures HandledAt(old(store.View()), store.sortedP2PID, r, w, stop, store.View())
    ensures HopOf(stop.actions, r, hop) && (hop.Some? ==> hop.value != me)
    ensures IsOffload(r) ==> hop.None?
  {
    var result, target, actions := Handle(store, r, w);
    stop := Stop(me, result, target, actions);
    var next := NextHop(actions);
    ghost var peer := HandledHop(old(store.View()), store.sortedP2PID, r, w, stop, store.View());
    hop := None;
    if next.Some? {
      hop := Some(next.value.on);
    }
  }

  /** Handling a request keeps the catalog invariant. */
  lemma HandledKeepsInv(c: Catalog, ids: seq<string>, r: Request, w: World, s: Stop, c': Catalog)
    requires HandledAt(c, ids, r, w, s, c') && Inv(c)
    ensures Inv(c')
  {
    if !s.result.NotFound? {
      var p := if IsOffload(r) then c else Prepared(c, ids, r, s.target, w);
      PreparedKeepsInv(c, ids, r, s.target, w);
      var target := if IsOffload(r) then SELF else s.target;
      if target in p.nodes && Fits(w, p.nodes, r.name) {
        AnsweredKeepsInv(p, r.name, target, w);
      }
    }
  }

  lemma OffloadedOnlyAnswers(c: Catalog, ids: seq<string>, r: Request, w: World, s: Stop, c': Catalog)
    requires HandledAt(c, ids, r, w, s, c') && IsOffload(r)
    ensures OnlyAnswers(s, r) && OnlyAnswered(c, r, w, c')
  {
  }

  // ------------------------------------------------- the way, whatever a node's state is

  /** The request is sent on to a node of the cluster. */
  predicate SentOn(actions: seq<Action>, nodes: set<string>) {
    exists a :: a in actions && a.Invoke? && a.on != SELF && a.on in nodes
  }

  /** How one node may handle a request: its name, its state before, the request, what it did, its state after. */
  type Handling<!C> = (string, C, Request, Stop, C) -> bool

  ghost predicate StopAt<C(!new)>(handles: Handling<C>, views: map<string, C>, r: Request, s: Stop, views': map<string, C>) {
    && s.node in views && s.node in views'
    && handles(s.node, views[s.node], r, s, views'[s.node])
    && (IsOffload(r) ==> OnlyAnswers(s, r))
  }

  /** The way of a request that entered at node, while the states went from views
      to views': one node, or two exactly if the first sends it on to a node of the
      cluster. The second is that node, gets the marked request and only answers
      it. No other state changes. */
  ghost predicate IsWay<C(!new)>(handles: Handling<C>, views: map<string, C>, node: string, r: Request,
                                 stops: seq<Stop>, views': map<string, C>) {
    && 1 <= |stops| <= (if IsOffload(r) then 1 else 2)
    && stops[0].node == node && StopAt(handles, views, r, stops[0], views')
    && (|stops| == 2 <==> SentOn(stops[0].actions, views.Keys))
    && (|stops| == 2 ==>
          && stops[1].node != node && Invoke(stops[1].node, MarkOffload(r)) in stops[0].actions
          && StopAt(handles, views, MarkOffload(r), stops[1], views'))
    && views'.Keys == views.Keys
    && forall k :: k in views && k != node && (|stops| == 2 ==> k != stops[1].node) ==> views'[k] == views[k]
  }

  /** Every node is ready for the request. */
  ghost predicate AllReady<C(!new)>(ready: (string, C) -> bool, views: map<string, C>) {
    forall k :: k in views ==> ready(k, views[k])
  }

  lemma WayEnds<C(!new)>(handles: Handling<C>, views: map<string, C>, r: Request, stop: Stop, hop: Option<string>,
                         views': map<string, C>)
    requires StopAt(handles, views, r, stop, views') && views' == views[stop.node := views'[stop.node]]
    requires HopOf(stop.actions, r, hop) && (hop.Some? ==> hop.value !in views)
    ensures IsWay(handles, views, stop.node, r, [stop], views')
  {
  }

  lemma WayGoesOn<C(!new)>(handles: Handling<C>, views: map<string, C>, r: Request, stop: Stop, hop: string,
                           views1: map<string, C>, more: seq<Stop>, views2: map<string, C>)
    requires StopAt(handles, views, r, stop, views1) && views1 == views[stop.node := views1[stop.node]]
    requires HopOf(stop.actions, r, Some(hop)) && hop in views && hop != stop.node && !IsOffload(r)
    requires IsWay(handles, views1, hop, MarkOffload(r), more, views2)
    ensures IsWay(handles, views, stop.node, r, [stop] + more, views2)
  {
    assert Invoke(hop, MarkOffload(r)) in stop.actions;
    assert [stop] + more == [stop, more[0]];
  }

  // --------------------------------------------------------- the way through a cluster

  /** Each node handles requests as Handle says, with its own ranking and surroundings. */
  ghost function HandledIn(ranks: map<string, seq<string>>, worlds: map<string, World>): Handling<Catalog> {
    (k: string, c: Catalog, r: Request, s: Stop, c': Catalog) =>
      k in ranks && k in worlds && HandledAt(c, ranks[k], r, worlds[k], s, c')
  }

  /** Each node can take a request for f, with its own ranking and surroundings. */
  ghost function ReadyIn(ranks: map<string, seq<string>>, worlds: map<string, World>, f: string)
    : (string, Catalog) -> bool
  {
    (k: string, c: Catalog) => k in ranks && k in worlds && CanTake(c, ranks[k], worlds[k], k, f)
  }

  /** The handler at a node called me, said of its state. */
  method HandleNode(store: Store, me: string, r: Request, worlds: map<string, World>,
                    ghost ranks: map<string, seq<string>>)
    returns (stop: Stop, hop: Option<string>)
    requires me in worlds && me in ranks && store.sortedP2PID == ranks[me]
    requires ReadyIn(ranks, worlds, r.name)(me, store.View())
    modifies store`nodeCatalog, store`functionCatalog, store`pending
    ensures ReadyIn(ranks, worlds, r.name)(me, store.View()) && stop.node == me
    ensures HandledIn(ranks, worlds)(me, old(store.View()), r, stop, store.View())
    ensures IsOffload(r) ==> OnlyAnswers(stop, r)
    ensures HopOf(stop.actions, r, hop) && (hop.Some? ==> hop.value != me)
    ensures IsOffload(r) ==> hop.None?
  {
    stop, hop := HandleAt(store, me, r, worlds[me]);
    if IsOffload(r) {
      OffloadedOnlyAnswers(old(store.View()), ranks[me], r, worlds[me], stop, store.View());
    }
  }

  lemma ViewsAre(stores: map<string, Store>, views: map<string, Catalog>, ranks: map<string, seq<string>>)
    requires views.Keys == stores.Keys == ranks.Keys
    requires forall k :: k in stores ==> stores[k].View() == views[k] && stores[k].sortedP2PID == ranks[k]
    ensures Views(stores) == views && Ranks(stores) == ranks
  {
  }

  lemma OneStep<C(!new)>(ready: (string, C) -> bool, handles: Handling<C>, views: map<string, C>, r: Request,
                         stop: Stop, c: C, views': map<string, C>)
    requires AllReady(ready, views) && stop.node in views && views' == views[stop.node := c]
    requires ready(stop.node, c) && handles(stop.node, views[stop.node], r, stop, c)
    requires IsOffload(r) ==> OnlyAnswers(stop, r)
    ensures AllReady(ready, views') && StopAt(handles, views, r, stop, views')
  {
  }

  /** The handler at one node of the cluster; the other nodes are not touched. */
  method HandleIn(stores: map<string, Store>, node: string, r: Request, worlds: map<string, World>,
                  ghost views: map<string, Catalog>, ghost ranks: map<string, seq<string>>)
    returns (stop: Stop, hop: Option<string>, ghost c: Catalog)
    requires node in stores && Separate(stores) && views == Views(stores) && ranks == Ranks(stores)
    requires node in worlds && ReadyIn(ranks, worlds, r.name)(node, views[node])
    modifies {stores[node]}`nodeCatalog, {stores[node]}`functionCatalog, {stores[node]}`pending
    ensures Views(stores) == views[node := c] && Ranks(stores) == ranks
    ensures ReadyIn(ranks, worlds, r.name)(node, c) && HandledIn(ranks, worlds)(node, views[node], r, stop, c)
    ensures stop.node == node && (IsOffload(r) ==> OnlyAnswers(stop, r) && hop.None?)
    ensures HopOf(stop.actions, r, hop) && (hop.Some? ==> hop.value != node)
  {
    stop, hop := HandleNode(stores[node], node, r, worlds, ranks);
    c := stores[node].View();
    forall k | k in stores
      ensures stores[k].View() == views[node := c][k] && stores[k].sortedP2PID == ranks[k]
    {
      assert k != node ==> stores[k] != stores[node];
    }
    ViewsAre(stores, views[node := c], ranks);
  }

  /** The way of a request: handled where it enters and, exactly if that node
      sends it on to a node of the cluster, there. For any catalogs, however
      stale, this ends after at most one hop; the second node only answers, and no
      other node is touched. */
  method Route(stores: map<string, Store>, node: string, r: Request, worlds: map<string, World>,
               ghost ranks: map<string, seq<string>>)
    returns (stops: seq<Stop>)
    requires node in stores && Separate(stores) && stores.Keys <= worlds.Keys && ranks == Ranks(stores)
    requires AllReady(ReadyIn(ranks, worlds, r.name), Views(stores))
    modifies stores.Values`nodeCatalog, stores.Values`functionCatalog, stores.Values`pending
    ensures IsWay(HandledIn(ranks, worlds), old(Views(stores)), node, r, stops, Views(stores))
    decreases if IsOffload(r) then 0 else 1
  {
    ghost var views := Views(stores);
    var stop, hop, c := HandleIn(stores, node, r, worlds, views, ranks);
    stops := [stop];
    ghost var views1 := views[node := c];
    OneStep(ReadyIn(ranks, worlds, r.name), HandledIn(ranks, worlds), views, r, stop, c, views1);
    if hop.Some? && hop.value in stores {
      var more := Route(stores, hop.value, MarkOffload(r), worlds, ranks);
      WayGoesOn(HandledIn(ranks, worlds), views, r, stop, hop.value, views1, more, Views(stores));
      stops := stops + more;
    } else {
      WayEnds(HandledIn(ranks, worlds), views, r, stop, hop, views1);
    }
  }

  /** What the way of an accepted request means for the second node: its catalog
      changes by messages and the measurement only. */
  lemma SecondOnlyAnswered(ranks: map<string, seq<string>>, worlds: map<string, World>, views: map<string, Catalog>,
                           node: string, r: Request, stops: seq<Stop>, views': map<string, Catalog>)
    requires IsWay(HandledIn(ranks, worlds), views, node, r, stops, views') && |stops| == 2
    ensures var k := stops[1].node;
            k in views && k in views' && k in worlds && OnlyAnswered(views[k], MarkOffload(r), worlds[k], views'[k])
  {
    var k := stops[1].node;
    OffloadedOnlyAnswers(views[k], ranks[k], MarkOffload(r), worlds[k], stops[1], views'[k]);
  }
}
