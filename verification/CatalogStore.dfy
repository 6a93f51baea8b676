/** The catalog as the provider keeps it: an object whose tables are updated in
    place. Each method is tied to the catalog function it performs. Go visits a
    map in no fixed order; every loop over one here picks any remaining key. */
module CatalogStore {
  import opened Sums
  import opened CatalogModel
  import opened CatalogEffects
  import opened Strings
  import opened Ranking
  import opened PingRanking

  /** The execution times after one entry of a message. */
  function RefreshedTimes(n: NodeInfo, fn: FunctionStatus, times: map<string, int>): map<string, int> {
    if fn.availableReplicas > Count(n, fn.name) || (fn.availableReplicas > 0 && fn.name !in times)
    then times[fn.name := 1] else times
  }

  method Refresh(n: NodeInfo, fn: FunctionStatus, times: map<string, int>) returns (times': map<string, int>)
    ensures times' == RefreshedTimes(n, fn, times)
  {
    times' := times;
    if fn.name !in times' && fn.availableReplicas > 0 {
      times' := times'[fn.name := 1];
    }
    if (fn.name !in n.replicas && fn.availableReplicas > 0)
       || (fn.name in n.replicas && n.replicas[fn.name] < fn.availableReplicas)
    {
      times' := times'[fn.name := 1];
    }
  }

  /** Refreshing entry by entry computes TimesAfter of the whole message. */
  lemma TimesAfterOneMore(n: NodeInfo, fns: seq<FunctionStatus>, i: nat)
    requires i < |fns|
    ensures TimesAfter(n, fns[..i + 1]) == RefreshedTimes(n, fns[i], TimesAfter(n, fns[..i]))
  {
    var before, after := fns[..i], fns[..i + 1];
    var f := fns[i].name;
    assert after == before + [fns[i]];
    assert RunningNames(after) == RunningNames(before) + (if fns[i].availableReplicas > 0 then {f} else {}) by {
      forall g | g in RunningNames(before) ensures g in RunningNames(after) {
        var k :| 0 <= k < |before| && before[k].availableReplicas > 0 && before[k].name == g;
        assert after[k].name == g;
      }
    }
    forall g ensures Rises(n, after, g) <==> Rises(n, before, g) || (g == f && fns[i].availableReplicas > Count(n, f)) {
      if Rises(n, before, g) {
        var k :| 0 <= k < |before| && before[k].name == g && before[k].availableReplicas > Count(n, g);
        assert after[k].name == g;
      }
      assert after[i] == fns[i];
    }
  }

  /** One more function found at start-up. */
  lemma StartupMore(fns: seq<FunctionStatus>, i: nat)
    requires i < |fns|
    ensures StartupFunctions(fns[..i + 1]) == StartupFunctions(fns[..i])[fns[i].name := fns[i]]
    ensures var me := StartupRecord(fns[..i]);
            StartupRecord(fns[..i + 1]) == NodeInfo(me.execTime[fns[i].name := 1],
                                                    me.replicas[fns[i].name := fns[i].availableReplicas], me.overload)
  {
    assert fns[..i + 1][..i] == fns[..i];
    var before, after := MsgCounts(fns[..i]), MsgCounts(fns[..i + 1]);
    assert after.Keys == before.Keys + {fns[i].name};
    assert FreshTimes(after.Keys) == FreshTimes(before.Keys)[fns[i].name := 1];
  }

  /** The only ranking of this node alone. */
  lemma OnlyMe(ids: seq<string>)
    requires IsRanking(map[SELF := 0], ids)
    ensures ids == [SELF]
  {
    assert |map[SELF := 0]| == |map[SELF := 0].Keys| == 1;
  }

  /** The list names exactly these functions, each once. */
  ghost predicate NamesOnce(list: seq<FunctionStatus>, names: set<string>) {
    && (forall i, j :: 0 <= i < j < |list| ==> list[i].name != list[j].name)
    && (forall f :: f in names ==> exists i :: 0 <= i < |list| && list[i].name == f)
    && (forall i :: 0 <= i < |list| ==> list[i].name in names)
  }

  lemma NamesOneMore(list: seq<FunctionStatus>, names: set<string>, fn: FunctionStatus)
    requires NamesOnce(list, names) && fn.name !in names
    ensures NamesOnce(list + [fn], names + {fn.name})
  {
    var more := list + [fn];
    assert more[|list|] == fn;
    forall f | f in names + {fn.name} ensures exists i :: 0 <= i < |more| && more[i].name == f {
      if f in names {
        var i :| 0 <= i < |list| && list[i].name == f;
        assert more[i].name == f;
      }
    }
  }

  class Store {
    var nodeCatalog: map<string, NodeInfo>
    var functionCatalog: map<string, FunctionStatus>
    var pending: nat
    var sortedP2PID: seq<string>
    const capacity: nat

    predicate Valid()
      reads this
    {
      SELF in nodeCatalog
    }

    function View(): Catalog
      reads this
    {
      Catalog(nodeCatalog, functionCatalog, pending)
    }

    /** An empty catalog whose ranking has room for capacity nodes. */
    constructor (capacity: nat)
      ensures View() == Catalog(map[], map[], 0)
      ensures this.capacity == capacity && sortedP2PID == []
    {
      this.capacity := capacity;
      nodeCatalog, functionCatalog, pending, sortedP2PID := map[], map[], 0, [];
    }

    /** Start-up: this node's record, filled from the functions found on the
        machine. Fails when the ranking has room for no node. */
    method InitSelfCatalog(fns: seq<FunctionStatus>) returns (ok: bool)
      requires View() == Catalog(map[], map[], 0)
      modifies this
      ensures ok <==> capacity > 0
      ensures ok ==> Valid() && View() == Startup(fns) && sortedP2PID == [SELF]
    {
      ok := NewNodeCatalogEntry(SELF, map[]);
      if !ok {
        return;
      }
      assert Distances({SELF}, SELF, map[]) == map[SELF := 0];
      OnlyMe(sortedP2PID);
      assert nodeCatalog == map[SELF := NO_INFO];
      FillSelf(fns);
    }

    method FillSelf(fns: seq<FunctionStatus>)
      requires nodeCatalog == map[SELF := NO_INFO] && functionCatalog == map[]
      modifies this`nodeCatalog, this`functionCatalog
      ensures nodeCatalog == map[SELF := StartupRecord(fns)] && functionCatalog == StartupFunctions(fns)
    {
      assert StartupRecord([]) == NO_INFO;
      for i := 0 to |fns|
        invariant functionCatalog == StartupFunctions(fns[..i])
        invariant nodeCatalog == map[SELF := StartupRecord(fns[..i])]
      {
        StartupMore(fns, i);
        functionCatalog := functionCatalog[fns[i].name := fns[i]];
        var me := nodeCatalog[SELF];
        nodeCatalog := nodeCatalog[SELF := NodeInfo(me.execTime[fns[i].name := 1],
                                                    me.replicas[fns[i].name := fns[i].availableReplicas],
                                                    me.overload)];
      }
      assert fns[..|fns|] == fns;
    }

    /** Adds up the counts of f over all records. */
    method CountReplicas(f: string) returns (replicas: nat)
      ensures replicas == Total(nodeCatalog, f)
    {
      replicas := 0;
      var todo := nodeCatalog;
      while todo != map[]
        invariant replicas + Total(todo, f) == Total(nodeCatalog, f)
        decreases |todo|
      {
        var id :| id in todo;
        if f in todo[id].replicas {
          replicas := replicas + todo[id].replicas[f];
        }
        SumRemove(Counts(todo, f), id);
        assert Counts(todo - {id}, f) == Counts(todo, f) - {id};
        RemoveShrinks(todo, id);
        todo := todo - {id};
      }
    }

    /** Fails, as a dereference of a missing entry, exactly when f is not catalogued. */
    method UpdateReplicasWithFunctionName(f: string) returns (ok: bool)
      modifies this`functionCatalog
      ensures ok <==> f in old(functionCatalog)
      ensures functionCatalog == if ok then Recount(old(functionCatalog), nodeCatalog, f) else old(functionCatalog)
    {
      var replicas := CountReplicas(f);
      ok := f in functionCatalog;
      if ok {
        functionCatalog := functionCatalog[f := functionCatalog[f].(replicas := replicas)];
      }
    }

    method UpdateReplicas()
      modifies this`functionCatalog
      ensures functionCatalog == RecountAll(old(functionCatalog), nodeCatalog)
    {
      var todo := functionCatalog.Keys;
      while todo != {}
        invariant todo <= functionCatalog.Keys == old(functionCatalog).Keys
        invariant forall f :: f in todo ==> functionCatalog[f] == old(functionCatalog)[f]
        invariant forall f :: f in functionCatalog && f !in todo ==>
                    functionCatalog[f] == old(functionCatalog)[f].(replicas := Total(nodeCatalog, f))
      {
        var f :| f in todo;
        var replicas := CountReplicas(f);
        functionCatalog := functionCatalog[f := functionCatalog[f].(replicas := replicas)];
        todo := todo - {f};
      }
    }

    method AddAvailableFunctions(fs: FunctionStatus)
      requires Valid()
      modifies this`nodeCatalog, this`functionCatalog, this`pending
      ensures Valid() && View() == AddFunction(old(View()), fs)
    {
      var me := nodeCatalog[SELF];
      me := me.(execTime := me.execTime[fs.name := 1]);
      me := me.(replicas := me.replicas[fs.name := fs.availableReplicas]);
      nodeCatalog := nodeCatalog[SELF := me];
      if fs.name !in functionCatalog {
        functionCatalog := functionCatalog[fs.name := fs];
      }
      var ok := UpdateReplicasWithFunctionName(fs.name);
      pending := pending + 1;
      assert nodeCatalog == AddFunction(old(View()), fs).nodes;
    }

    method UpdateAvailableFunctions(fs: FunctionStatus) returns (ok: bool)
      requires Valid()
      modifies this`nodeCatalog, this`functionCatalog, this`pending
      ensures Valid() && View() == UpdateFunction(old(View()), fs)
      ensures ok <==> fs.name in old(functionCatalog)
    {
      var me := nodeCatalog[SELF];
      nodeCatalog := nodeCatalog[SELF := me.(replicas := me.replicas[fs.name := fs.availableReplicas])];
      ok := UpdateReplicasWithFunctionName(fs.name);
      if ok {
        pending := pending + 1;
      }
    }

    method DeleteAvailableFunctions(f: string) returns (ok: bool)
      requires Valid()
      modifies this`nodeCatalog, this`functionCatalog, this`pending
      ensures Valid() && View() == DeleteFunction(old(View()), f)
      ensures ok <==> f in old(functionCatalog)
    {
      var me := nodeCatalog[SELF];
      nodeCatalog := nodeCatalog[SELF := me.(replicas := me.replicas - {f})];
      ok := UpdateReplicasWithFunctionName(f);
      if ok {
        if functionCatalog[f].replicas == 0 {
          functionCatalog := functionCatalog - {f};
          assert functionCatalog == old(functionCatalog) - {f};
        }
        pending := pending + 1;
      }
    }

    /** One round of the update loop: load is true when the CPU or the memory
        average is above its threshold; a flip of the flag is published. */
    method ListenUpdateInfo(load: bool)
      requires Valid()
      modifies this`nodeCatalog, this`pending
      ensures Valid() && View() == SetOverload(old(View()), load)
    {
      var updated := false;
      if load != nodeCatalog[SELF].overload {
        nodeCatalog := nodeCatalog[SELF := nodeCatalog[SELF].(overload := load)];
        updated := true;
      }
      if updated {
        pending := pending + 1;
      }
    }

    /** Re-ranks the nodes; fails when there are more nodes than the ranking has room for. */
    method RankNodeByRTT(ping: map<string, int>) returns (ok: bool)
      requires Pinged(nodeCatalog.Keys, SELF, ping)
      modifies this`sortedP2PID
      ensures ok <==> |nodeCatalog| <= capacity
      ensures ok ==> RankedByPing(nodeCatalog.Keys, SELF, ping, sortedP2PID)
      ensures !ok ==> sortedP2PID == old(sortedP2PID)
    {
      var ids := Rank(Distances(nodeCatalog.Keys, SELF, ping));
      DistancesKeys(nodeCatalog.Keys, SELF, ping);
      assert |nodeCatalog| == |nodeCatalog.Keys|;
      ok := |ids| <= capacity;
      if ok {
        sortedP2PID := ids;
        RankingByPing(nodeCatalog.Keys, SELF, ping, ids);
      }
    }

    method NewNodeCatalogEntry(id: string, ping: map<string, int>) returns (ok: bool)
      requires Pinged(nodeCatalog.Keys + {id}, SELF, ping)
      modifies this`nodeCatalog, this`sortedP2PID
      ensures View() == NewPeer(old(View()), id)
      ensures ok <==> id in old(nodeCatalog) || |nodeCatalog| <= capacity
      ensures nodeCatalog.Keys == old(nodeCatalog).Keys + {id}
      ensures if ok && id !in old(nodeCatalog)
              then RankedByPing(nodeCatalog.Keys, SELF, ping, sortedP2PID)
              else sortedP2PID == old(sortedP2PID)
    {
      ok := true;
      if id !in nodeCatalog {
        nodeCatalog := nodeCatalog[id := NO_INFO];
        assert nodeCatalog.Keys == old(nodeCatalog).Keys + {id};
        ok := RankNodeByRTT(ping);
      }
    }

    /** The functions of the self record are visited in any order. */
    method PackNodeInfoMsg() returns (msg: NodeInfoMsg)
      requires Packable(View()) && Named(functionCatalog)
      ensures IsPack(View(), msg)
    {
      var me := nodeCatalog[SELF];
      var fns: seq<FunctionStatus> := [];
      var todo := me.replicas.Keys;
      while todo != {}
        invariant todo <= me.replicas.Keys && NamesOnce(fns, me.replicas.Keys - todo)
        invariant forall i :: 0 <= i < |fns| ==>
                    && fns[i].name in functionCatalog && fns[i].name in me.replicas
                    && fns[i] == functionCatalog[fns[i].name].(availableReplicas := me.replicas[fns[i].name])
      {
        var f :| f in todo;
        assert f in me.replicas.Keys;
        var fn := functionCatalog[f].(availableReplicas := me.replicas[f]);
        NamesOneMore(fns, me.replicas.Keys - todo, fn);
        assert me.replicas.Keys - todo + {f} == me.replicas.Keys - (todo - {f});
        fns := fns + [fn];
        todo := todo - {f};
      }
      assert me.replicas.Keys - {} == me.replicas.Keys;
      msg := NodeInfoMsg(fns, me.overload);
    }

    method UnpackNodeInfoMsg(id: string, msg: NodeInfoMsg)
      requires Valid() && id in nodeCatalog
      modifies this`nodeCatalog, this`functionCatalog
      ensures Valid() && View() == Unpack(old(View()), id, msg) && nodeCatalog.Keys == old(nodeCatalog).Keys
    {
      var before := nodeCatalog[id];
      var fns := msg.functions;
      var execTime, updateReplicas := before.execTime, map[];
      assert TimesAfter(before, []) == before.execTime;
      for i := 0 to |fns|
        invariant nodeCatalog == old(nodeCatalog)
        invariant execTime == TimesAfter(before, fns[..i])
        invariant functionCatalog == Learn(old(functionCatalog), fns[..i])
        invariant updateReplicas == MsgCounts(fns[..i])
      {
        var fn := fns[i];
        assert fns[..i + 1][..i] == fns[..i];
        TimesAfterOneMore(before, fns, i);
        execTime := Refresh(before, fn, execTime);
        if fn.name !in functionCatalog {
          functionCatalog := functionCatalog[fn.name := fn];
        }
        updateReplicas := updateReplicas[fn.name := fn.availableReplicas];
      }
      assert fns[..|fns|] == fns;
      nodeCatalog := nodeCatalog[id := NodeInfo(execTime, updateReplicas, msg.overload)];
      UpdateReplicas();
    }

    /** A snapshot received on its own stream: an entry is created first if there is none. */
    method StreamAvailableFunctions(id: string, msg: NodeInfoMsg, ping: map<string, int>) returns (ok: bool)
      requires Valid() && id != SELF
      requires Pinged(nodeCatalog.Keys + {id}, SELF, ping)
      modifies this
      ensures Valid()
      ensures ok <==> id in old(nodeCatalog) || |old(nodeCatalog)| < capacity
      ensures View() == if ok then Unpack(NewPeer(old(View()), id), id, msg) else NewPeer(old(View()), id)
      ensures nodeCatalog.Keys == old(nodeCatalog).Keys + {id}
      ensures if ok && id !in old(nodeCatalog)
              then RankedByPing(nodeCatalog.Keys, SELF, ping, sortedP2PID)
              else sortedP2PID == old(sortedP2PID)
    {
      ok := NewNodeCatalogEntry(id, ping);
      if id !in old(nodeCatalog) {
        assert nodeCatalog.Keys == old(nodeCatalog).Keys + {id};
        assert |nodeCatalog| == |nodeCatalog.Keys| && |old(nodeCatalog)| == |old(nodeCatalog).Keys|;
      }
      if ok {
        UnpackNodeInfoMsg(id, msg);
      }
    }

    /** A request that took so long stores the average of the recorded time and
        its own; fails, as a dereference of nothing, exactly without a recorded time. */
    method RecordTime(id: string, f: string, nanoseconds: nat) returns (ok: bool)
      requires id in nodeCatalog && HasTimes(nodeCatalog[id])
      modifies this`nodeCatalog
      ensures ok <==> f in old(nodeCatalog[id]).execTime
      ensures nodeCatalog == if ok
                             then Measure(old(nodeCatalog), id, f, old(nodeCatalog[id]).execTime[f], nanoseconds)
                             else old(nodeCatalog)
      ensures ok ==>
                && OnlyTimeOf(old(nodeCatalog), nodeCatalog, id, f) && f in nodeCatalog[id].execTime
                && ExecTime.Moves(old(nodeCatalog[id]).execTime[f], nanoseconds, nodeCatalog[id].execTime[f])
    {
      var node := nodeCatalog[id];
      ok := f in node.execTime;
      if ok {
        MeasureEffect(nodeCatalog, id, f, node.execTime[f], nanoseconds);
        var time := node.execTime[f];
        if time == 1 {
          time := nanoseconds / 1000000;
        } else {
          time := (time + nanoseconds / 1000000) / 2;
        }
        nodeCatalog := nodeCatalog[id := node.(execTime := node.execTime[f := time])];
      }
    }

    method GetAvailableFunction(f: string) returns (r: Option<FunctionStatus>)
      requires Valid()
      ensures r == if f in functionCatalog
                   then Some(functionCatalog[f].(availableReplicas := Count(nodeCatalog[SELF], f)))
                   else None
    {
      if f in functionCatalog {
        var fn := functionCatalog[f];
        if f in nodeCatalog[SELF].replicas {
          fn := fn.(availableReplicas := nodeCatalog[SELF].replicas[f]);
        } else {
          fn := fn.(availableReplicas := 0);
        }
        return Some(fn);
      }
      return None;
    }

    /** The cluster-level listing: every catalogued function once, in any order,
        with the sum of all records and this node's share of it. */
    method ListAvailableFunctions() returns (list: seq<FunctionStatus>)
      requires Valid() && Named(functionCatalog) && AggregateIsSum(View())
      ensures NamesOnce(list, functionCatalog.Keys)
      ensures forall i :: 0 <= i < |list| ==>
                && list[i].name in functionCatalog && list[i].spec == functionCatalog[list[i].name].spec
                && list[i].replicas == Total(nodeCatalog, list[i].name)
                && list[i].availableReplicas == Count(nodeCatalog[SELF], list[i].name)
    {
      list := [];
      var todo := functionCatalog.Keys;
      while todo != {}
        invariant todo <= functionCatalog.Keys && NamesOnce(list, functionCatalog.Keys - todo)
        invariant forall i :: 0 <= i < |list| ==>
                    && list[i].name in functionCatalog && list[i].spec == functionCatalog[list[i].name].spec
                    && list[i].replicas == functionCatalog[list[i].name].replicas
                    && list[i].availableReplicas == Count(nodeCatalog[SELF], list[i].name)
      {
        var f :| f in todo;
        assert f in functionCatalog && functionCatalog[f].name == f;
        var r := GetAvailableFunction(f);
        NamesOneMore(list, functionCatalog.Keys - todo, r.value);
        assert functionCatalog.Keys - todo + {f} == functionCatalog.Keys - (todo - {f});
        list := list + [r.value];
        todo := todo - {f};
      }
      assert functionCatalog.Keys - {} == functionCatalog.Keys;
    }
  }
}
