/** What each catalog operation does to every single entry of the catalog: the
    counts, times, flags, aggregates and deployment fields it sets, and all that
    it leaves as it was. */
module CatalogEffects {
  import opened CatalogModel

  // ------------------------------------------------------------------------ frames

  /** Only the record of id may differ. */
  predicate OthersKept(nodes: map<string, NodeInfo>, nodes': map<string, NodeInfo>, id: string) {
    nodes'.Keys == nodes.Keys && forall k :: k in nodes && k != id ==> nodes'[k] == nodes[k]
  }

  /** Only the entry of f may differ. */
  ghost predicate EntriesKept<T>(m: map<string, T>, m': map<string, T>, f: string) {
    forall g :: g != f ==> (g in m' <==> g in m) && (g in m ==> m'[g] == m[g])
  }

  /** The same function, apart from the aggregate. */
  predicate SameDeployment(fs: FunctionStatus, fs': FunctionStatus) {
    fs'.name == fs.name && fs'.spec == fs.spec && fs'.availableReplicas == fs.availableReplicas
  }

  /** Only the time of f at id may differ. */
  ghost predicate OnlyTimeOf(nodes: map<string, NodeInfo>, nodes': map<string, NodeInfo>, id: string, f: string)
    requires id in nodes
  {
    && OthersKept(nodes, nodes', id)
    && nodes'[id].replicas == nodes[id].replicas && nodes'[id].overload == nodes[id].overload
    && EntriesKept(nodes[id].execTime, nodes'[id].execTime, f)
  }

  // -------------------------------------------------------------- local operations

  /** After an add f is here with the count given and is fresh. */
  ghost predicate Added(c: Catalog, fs: FunctionStatus, c': Catalog)
    requires SELF in c.nodes
  {
    var f := fs.name;
    && OthersKept(c.nodes, c'.nodes, SELF)
    && var me, me' := c.nodes[SELF], c'.nodes[SELF];
    && f in me'.replicas && me'.replicas[f] == fs.availableReplicas && EntriesKept(me.replicas, me'.replicas, f)
    && f in me'.execTime && me'.execTime[f] == 1 && EntriesKept(me.execTime, me'.execTime, f)
    && me'.overload == me.overload
    && EntriesKept(c.functions, c'.functions, f)
    && f in c'.functions && SameDeployment(if f in c.functions then c.functions[f] else fs, c'.functions[f])
    && c'.pending == c.pending + 1
  }

  lemma AddEffect(c: Catalog, fs: FunctionStatus)
    requires SELF in c.nodes
    ensures Added(c, fs, AddFunction(c, fs))
    ensures var c' := AddFunction(c, fs); c'.functions[fs.name].replicas == Total(c'.nodes, fs.name)
  {
  }

  /** After an update f has the count given here; no time changes. */
  lemma UpdateEffect(c: Catalog, fs: FunctionStatus)
    requires SELF in c.nodes
    ensures var f, c' := fs.name, UpdateFunction(c, fs);
            && OthersKept(c.nodes, c'.nodes, SELF)
            && var me, me' := c.nodes[SELF], c'.nodes[SELF];
            && f in me'.replicas && me'.replicas[f] == fs.availableReplicas && EntriesKept(me.replicas, me'.replicas, f)
            && me'.execTime == me.execTime && me'.overload == me.overload
            && c'.functions.Keys == c.functions.Keys && EntriesKept(c.functions, c'.functions, f)
            && (f in c.functions ==> SameDeployment(c.functions[f], c'.functions[f])
                                     && c'.functions[f].replicas == Total(c'.nodes, f))
            && c'.pending == if f in c.functions then c.pending + 1 else c.pending
  {
  }

  /** After a delete f is gone from this node, its time is kept, and what the
      peers hold of it is what remains of its aggregate. */
  lemma DeleteEffect(c: Catalog, f: string)
    requires Inv(c)
    ensures var c' := DeleteFunction(c, f);
            && OthersKept(c.nodes, c'.nodes, SELF)
            && var me, me' := c.nodes[SELF], c'.nodes[SELF];
            && f !in me'.replicas && EntriesKept(me.replicas, me'.replicas, f)
            && me'.execTime == me.execTime && me'.overload == me.overload
            && EntriesKept(c.functions, c'.functions, f)
            && (f in c'.functions ==>
                  && f in c.functions && SameDeployment(c.functions[f], c'.functions[f])
                  && c'.functions[f].replicas == c.functions[f].replicas - Count(me, f) > 0)
            && (f in c.functions && f !in c'.functions ==> c.functions[f].replicas == Count(me, f))
            && c'.pending == if f in c.functions then c.pending + 1 else c.pending
  {
    var nodes := DeleteFunction(c, f).nodes;
    TotalUpdate(c.nodes, SELF, nodes[SELF], f);
  }

  /** The flag becomes the load, and a publish is asked for exactly when it flips. */
  lemma SetOverloadEffect(c: Catalog, load: bool)
    requires SELF in c.nodes
    ensures var c' := SetOverload(c, load);
            && OthersKept(c.nodes, c'.nodes, SELF)
            && var me, me' := c.nodes[SELF], c'.nodes[SELF];
            && me'.overload == load && me'.replicas == me.replicas && me'.execTime == me.execTime
            && c'.functions == c.functions
            && c'.pending == if me.overload != load then c.pending + 1 else c.pending
  {
  }

  // ------------------------------------------------------------------------- times

  lemma MeasureEffect(nodes: map<string, NodeInfo>, id: string, f: string, loaded: int, nanoseconds: nat)
    requires id in nodes && loaded >= 0
    ensures var nodes' := Measure(nodes, id, f, loaded, nanoseconds);
            && OnlyTimeOf(nodes, nodes', id, f)
            && f in nodes'[id].execTime && ExecTime.Moves(loaded, nanoseconds, nodes'[id].execTime[f])
  {
    ExecTime.AverageMoves(loaded, nanoseconds);
  }

  /** Every holder of f has time 1 for it; every other time, all replica tables and all flags are as before. */
  ghost predicate HoldersReset(nodes: map<string, NodeInfo>, f: string, nodes': map<string, NodeInfo>) {
    && nodes'.Keys == nodes.Keys
    && forall id :: id in nodes ==>
         && nodes'[id].replicas == nodes[id].replicas && nodes'[id].overload == nodes[id].overload
         && EntriesKept(nodes[id].execTime, nodes'[id].execTime, f)
         && (if f in nodes[id].replicas && nodes[id].replicas[f] > 0
             then f in nodes'[id].execTime && nodes'[id].execTime[f] == 1
             else nodes'[id].execTime == nodes[id].execTime)
  }

  lemma ResetEffect(nodes: map<string, NodeInfo>, f: string)
    ensures HoldersReset(nodes, f, ResetTimes(nodes, f))
  {
  }

  // ---------------------------------------------------------------------- messages

  /** Position i is the first one of the message that names f. */
  predicate FirstEntry(fns: seq<FunctionStatus>, f: string, i: int) {
    0 <= i < |fns| && fns[i].name == f && forall j :: 0 <= j < i ==> fns[j].name != f
  }

  /** An unknown function is stored as the first entry that names it. */
  lemma {:induction false} LearntIsFirst(functions: map<string, FunctionStatus>, fns: seq<FunctionStatus>, f: string)
    requires f in Learn(functions, fns) && f !in functions
    ensures exists i :: FirstEntry(fns, f, i) && Learn(functions, fns)[f] == fns[i]
  {
    var n := |fns| - 1;
    var init := fns[..n];
    if f in Learn(functions, init) {
      LearntIsFirst(functions, init, f);
      var i :| FirstEntry(init, f, i) && Learn(functions, init)[f] == init[i];
      assert FirstEntry(fns, f, i);
    } else {
      LearnCovers(functions, init);
      forall j | 0 <= j < n ensures fns[j].name != f {
        assert init[j] == fns[j];
      }
      assert FirstEntry(fns, f, n);
    }
  }

  /** The functions after a message: known ones keep all but the aggregate, new
      ones are the first entries that name them, and no others appear. */
  lemma UnpackFunctions(c: Catalog, id: string, msg: NodeInfoMsg, f: string)
    requires id in c.nodes
    ensures var fns, c' := msg.functions, Unpack(c, id, msg);
            && (f in c'.functions <==> f in c.functions || exists i :: FirstEntry(fns, f, i))
            && (f in c'.functions ==> c'.functions[f].replicas == Total(c'.nodes, f))
            && (f in c.functions ==> SameDeployment(c.functions[f], c'.functions[f]))
            && (f in c'.functions && f !in c.functions ==>
                  exists i :: FirstEntry(fns, f, i) && SameDeployment(fns[i], c'.functions[f]))
  {
    LearnCovers(c.functions, msg.functions);
    if f in Learn(c.functions, msg.functions) && f !in c.functions {
      LearntIsFirst(c.functions, msg.functions, f);
    }
  }

  /** The times after a message: 1 for a function of which some entry reports more
      than was on record, or that runs and had no time; every other time is kept. */
  lemma UnpackTimes(c: Catalog, id: string, msg: NodeInfoMsg, f: string)
    requires id in c.nodes
    ensures var fns, before, after := msg.functions, c.nodes[id], Unpack(c, id, msg).nodes[id];
            if exists i :: 0 <= i < |fns| && fns[i].name == f && Renews(before, fns[i])
            then f in after.execTime && after.execTime[f] == 1
            else (f in after.execTime <==> f in before.execTime)
                 && (f in before.execTime ==> after.execTime[f] == before.execTime[f])
  {
    var fns := msg.functions;
    if i :| 0 <= i < |fns| && fns[i].name == f && Renews(c.nodes[id], fns[i]) {
      assert f in RunningNames(fns);
    } else if f in RunningNames(fns) {
      var i :| 0 <= i < |fns| && fns[i].availableReplicas > 0 && fns[i].name == f;
      assert !Renews(c.nodes[id], fns[i]);
    }
  }

  /** The entry reports more than is on record, or something that runs and has no time. */
  predicate Renews(n: NodeInfo, fn: FunctionStatus) {
    || fn.availableReplicas > (if fn.name in n.replicas then n.replicas[fn.name] else 0)
    || (fn.availableReplicas > 0 && fn.name !in n.execTime)
  }

  /** The record of the sender takes the message's counts and flag; nothing else
      on record changes, and nothing is published. */
  lemma UnpackRecord(c: Catalog, id: string, msg: NodeInfoMsg)
    requires id in c.nodes
    ensures var fns, c' := msg.functions, Unpack(c, id, msg);
            && OthersKept(c.nodes, c'.nodes, id) && c'.pending == c.pending
            && c'.nodes[id].overload == msg.overload
            && (forall i :: 0 <= i < |fns| ==> fns[i].name in c'.nodes[id].replicas)
            && (forall f :: f in c'.nodes[id].replicas ==>
                  exists i :: LastEntry(fns, f, i) && c'.nodes[id].replicas[f] == fns[i].availableReplicas)
  {
    MsgCountsMeaning(msg.functions);
  }

  /** An unknown peer gets an empty record; nothing else changes. */
  lemma NewPeerEffect(c: Catalog, id: string)
    ensures var c' := NewPeer(c, id);
            && c'.nodes.Keys == c.nodes.Keys + {id} && EntriesKept(c.nodes, c'.nodes, id)
            && (id in c.nodes ==> c'.nodes[id] == c.nodes[id])
            && (id !in c.nodes ==> c'.nodes[id].replicas == map[] && c'.nodes[id].execTime == map[]
                                   && !c'.nodes[id].overload)
            && c'.functions == c.functions && c'.pending == c.pending
  {
  }

  // ---------------------------------------------------------------------- start-up

  lemma {:induction false} StartupIsLast(fns: seq<FunctionStatus>, f: string)
    requires f in StartupFunctions(fns)
    ensures exists i :: LastEntry(fns, f, i) && StartupFunctions(fns)[f] == fns[i]
  {
    var n := |fns| - 1;
    if fns[n].name == f {
      assert LastEntry(fns, f, n);
    } else {
      StartupIsLast(fns[..n], f);
      var i :| LastEntry(fns[..n], f, i) && StartupFunctions(fns[..n])[f] == fns[..n][i];
      assert LastEntry(fns, f, i);
    }
  }

  /** After start-up this node alone is on record, not overloaded: every function
      found is catalogued as found, has its count and is fresh. */
  lemma StartupEffect(fns: seq<FunctionStatus>)
    requires FromContainers(fns)
    ensures var c := Startup(fns);
            && c.nodes.Keys == {SELF} && !c.nodes[SELF].overload && c.pending == 0
            && (forall i :: 0 <= i < |fns| ==> fns[i].name in c.functions)
            && (forall f :: f in c.functions ==>
                  && f in c.nodes[SELF].replicas && f in c.nodes[SELF].execTime && c.nodes[SELF].execTime[f] == 1
                  && exists i :: LastEntry(fns, f, i) && c.functions[f] == fns[i]
                              && c.nodes[SELF].replicas[f] == fns[i].availableReplicas)
            && c.nodes[SELF].replicas.Keys == c.functions.Keys == c.nodes[SELF].execTime.Keys
  {
    StartupFunctionsMeaning(fns);
    MsgCountsMeaning(fns);
    var c := Startup(fns);
    forall i | 0 <= i < |fns| ensures fns[i].name in c.functions {
      assert fns[i].name in MsgCounts(fns).Keys;
    }
    forall f | f in c.functions
      ensures exists i :: LastEntry(fns, f, i) && c.functions[f] == fns[i]
                       && c.nodes[SELF].replicas[f] == fns[i].availableReplicas
    {
      StartupIsLast(fns, f);
    }
  }
}
