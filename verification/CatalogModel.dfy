/** The replica catalog one node keeps, as a value: its own record under the
    self key, one record per peer, and the aggregated function catalog. Every
    catalog operation is a function from the old catalog to the new one, and
    `Inv` is what all of them keep. */
module CatalogModel {
  import opened Sums
  import ExecTime

  const SELF: string := "0"

  /** The deployment part of a function status; no catalog operation looks inside it. */
  datatype Spec = Spec(image: string, envProcess: string, envVars: map<string, string>,
                       labels: map<string, string>, annotations: map<string, string>,
                       secrets: seq<string>)

  datatype FunctionStatus = FunctionStatus(name: string, spec: Spec,
                                           replicas: nat, availableReplicas: nat)

  datatype NodeInfo = NodeInfo(execTime: map<string, int>, replicas: map<string, nat>, overload: bool)

  datatype NodeInfoMsg = NodeInfoMsg(functions: seq<FunctionStatus>, overload: bool)

  /** `pending` counts the publish requests the publish loop has not served yet. */
  datatype Catalog = Catalog(nodes: map<string, NodeInfo>,
                             functions: map<string, FunctionStatus>,
                             pending: nat)

  /** What a node tells the others about itself. */
  datatype Report = Report(replicas: map<string, nat>, overload: bool)

  const NO_INFO := NodeInfo(map[], map[], false)
  const NO_REPORT := Report(map[], false)

  function ReportOf(n: NodeInfo): (r: Report) { Report(n.replicas, n.overload) }

  function Count(n: NodeInfo, f: string): nat {
    if f in n.replicas then n.replicas[f] else 0
  }

  function Counts(nodes: map<string, NodeInfo>, f: string): map<string, nat> {
    map id | id in nodes :: Count(nodes[id], f)
  }

  ghost function Total(nodes: map<string, NodeInfo>, f: string): nat {
    Sum(Counts(nodes, f))
  }

  // ---------------------------------------------------------------- invariant

  /** Each aggregate is the sum of the records. */
  ghost predicate AggregateIsSum(c: Catalog) {
    forall f :: f in c.functions ==> c.functions[f].replicas == Total(c.nodes, f)
  }

  /** A function that runs anywhere is catalogued. */
  ghost predicate RunningIsCatalogued(c: Catalog) {
    forall id, f :: id in c.nodes && Count(c.nodes[id], f) > 0 ==> f in c.functions
  }

  /** A node with a replica has an execution time for it, and no time is negative. */
  predicate HasTimes(n: NodeInfo) {
    && (forall f :: f in n.replicas && n.replicas[f] > 0 ==> f in n.execTime)
    && (forall f :: f in n.execTime ==> n.execTime[f] >= 0)
  }

  /** Every function of the self record is catalogued, so packing finds it. */
  predicate Packable(c: Catalog) {
    SELF in c.nodes && c.nodes[SELF].replicas.Keys <= c.functions.Keys
  }

  predicate Named(functions: map<string, FunctionStatus>) {
    forall f :: f in functions ==> functions[f].name == f
  }

  ghost predicate Inv(c: Catalog) {
    && Packable(c)
    && AggregateIsSum(c)
    && RunningIsCatalogued(c)
    && (forall id :: id in c.nodes ==> HasTimes(c.nodes[id]))
    && Named(c.functions)
  }

  // --------------------------------------------------------------- operations

  ghost function Recount(functions: map<string, FunctionStatus>, nodes: map<string, NodeInfo>, f: string)
    : map<string, FunctionStatus>
    requires f in functions
  {
    functions[f := functions[f].(replicas := Total(nodes, f))]
  }

  ghost function RecountAll(functions: map<string, FunctionStatus>, nodes: map<string, NodeInfo>)
    : map<string, FunctionStatus>
  {
    map f | f in functions :: functions[f].(replicas := Total(nodes, f))
  }

  ghost function AddFunction(c: Catalog, fs: FunctionStatus): Catalog
    requires SELF in c.nodes
  {
    var me := c.nodes[SELF];
    var nodes := c.nodes[SELF := NodeInfo(me.execTime[fs.name := 1],
                                          me.replicas[fs.name := fs.availableReplicas], me.overload)];
    var functions := if fs.name in c.functions then c.functions else c.functions[fs.name := fs];
    Catalog(nodes, Recount(functions, nodes, fs.name), c.pending + 1)
  }

  /** On a name that is not catalogued the recount dereferences a missing entry:
      the record is already written, nothing is recounted or published. */
  ghost function UpdateFunction(c: Catalog, fs: FunctionStatus): Catalog
    requires SELF in c.nodes
  {
    var me := c.nodes[SELF];
    var nodes := c.nodes[SELF := me.(replicas := me.replicas[fs.name := fs.availableReplicas])];
    if fs.name in c.functions
    then Catalog(nodes, Recount(c.functions, nodes, fs.name), c.pending + 1)
    else c.(nodes := nodes)
  }

  ghost function DeleteFunction(c: Catalog, f: string): Catalog
    requires SELF in c.nodes
  {
    var me := c.nodes[SELF];
    var nodes := c.nodes[SELF := me.(replicas := me.replicas - {f})];
    if f !in c.functions then c.(nodes := nodes)
    else Catalog(nodes,
                 if Total(nodes, f) == 0 then c.functions - {f} else Recount(c.functions, nodes, f),
                 c.pending + 1)
  }

  function SetOverload(c: Catalog, overload: bool): Catalog
    requires SELF in c.nodes
  {
    if c.nodes[SELF].overload == overload then c
    else c.(nodes := c.nodes[SELF := c.nodes[SELF].(overload := overload)], pending := c.pending + 1)
  }

  function NewPeer(c: Catalog, id: string): Catalog {
    if id in c.nodes then c else c.(nodes := c.nodes[id := NO_INFO])
  }

  /** A request stores the average of the time it loaded earlier and its own measurement. */
  function Measure(nodes: map<string, NodeInfo>, id: string, f: string, loaded: int, nanoseconds: nat)
    : map<string, NodeInfo>
    requires id in nodes && loaded >= 0
  {
    var time := ExecTime.Average(loaded, ExecTime.Millis(nanoseconds));
    nodes[id := nodes[id].(execTime := nodes[id].execTime[f := time])]
  }

  /** The recorded times of all holders of f set back to 1. */
  function ResetTimes(nodes: map<string, NodeInfo>, f: string): map<string, NodeInfo> {
    map id | id in nodes ::
      if Count(nodes[id], f) > 0 then nodes[id].(execTime := nodes[id].execTime[f := 1]) else nodes[id]
  }

  /** The replica table a message carries; on a repeated name the last entry wins. */
  function MsgCounts(fns: seq<FunctionStatus>): map<string, nat> {
    if fns == [] then map[]
    else MsgCounts(fns[..|fns| - 1])[fns[|fns| - 1].name := fns[|fns| - 1].availableReplicas]
  }

  /** The message reports more replicas of f than the record holds. */
  predicate Rises(n: NodeInfo, fns: seq<FunctionStatus>, f: string) {
    exists i :: 0 <= i < |fns| && fns[i].name == f && fns[i].availableReplicas > Count(n, f)
  }

  function RunningNames(fns: seq<FunctionStatus>): set<string> {
    set i | 0 <= i < |fns| && fns[i].availableReplicas > 0 :: fns[i].name
  }

  /** Execution times after a message: 1 for what is new or has grown, else untouched. */
  function TimesAfter(n: NodeInfo, fns: seq<FunctionStatus>): map<string, int> {
    map f | f in n.execTime.Keys + RunningNames(fns) ::
      if Rises(n, fns, f) || f !in n.execTime then 1 else n.execTime[f]
  }

  /** The function catalog extended by the unknown functions of a message; the first entry wins. */
  function Learn(functions: map<string, FunctionStatus>, fns: seq<FunctionStatus>): map<string, FunctionStatus> {
    if fns == [] then functions
    else
      var before := Learn(functions, fns[..|fns| - 1]);
      var fn := fns[|fns| - 1];
      if fn.name in before then before else before[fn.name := fn]
  }

  function Absorb(n: NodeInfo, msg: NodeInfoMsg): NodeInfo {
    NodeInfo(TimesAfter(n, msg.functions), MsgCounts(msg.functions), msg.overload)
  }

  ghost function Unpack(c: Catalog, id: string, msg: NodeInfoMsg): Catalog
    requires id in c.nodes
  {
    var nodes := c.nodes[id := Absorb(c.nodes[id], msg)];
    c.(nodes := nodes, functions := RecountAll(Learn(c.functions, msg.functions), nodes))
  }

  /** msg is a packing of the self record, in whatever order its functions were visited. */
  predicate IsPack(c: Catalog, msg: NodeInfoMsg) {
    && SELF in c.nodes
    && msg.overload == c.nodes[SELF].overload
    && (forall i, j :: 0 <= i < j < |msg.functions| ==> msg.functions[i].name != msg.functions[j].name)
    && (forall f :: f in c.nodes[SELF].replicas ==>
          exists i :: 0 <= i < |msg.functions| && msg.functions[i].name == f)
    && (forall i :: 0 <= i < |msg.functions| ==>
          var fn := msg.functions[i];
          && fn.name in c.functions && fn.name in c.nodes[SELF].replicas
          && fn == c.functions[fn.name].(availableReplicas := c.nodes[SELF].replicas[fn.name]))
  }

  // --------------------------------------------------------- totals under change

  lemma TotalUpdate(nodes: map<string, NodeInfo>, id: string, n: NodeInfo, f: string)
    ensures Total(nodes[id := n], f) + (if id in nodes then Count(nodes[id], f) else 0)
         == Total(nodes, f) + Count(n, f)
  {
    assert Counts(nodes[id := n], f) == Counts(nodes, f)[id := Count(n, f)];
    SumUpdate(Counts(nodes, f), id, Count(n, f));
  }

  /** Total is zero exactly when no record holds a replica. */
  lemma TotalZero(nodes: map<string, NodeInfo>, f: string)
    ensures Total(nodes, f) == 0 <==> forall id :: id in nodes ==> Count(nodes[id], f) == 0
  {
    var m := Counts(nodes, f);
    SumZero(m);
    assert forall id :: id in nodes <==> id in m;
    assert forall id :: id in m ==> m[id] == Count(nodes[id], f);
  }

  /** Changing a record in f only leaves every other aggregate right. */
  lemma OtherTotalsKept(c: Catalog, id: string, n: NodeInfo, f: string)
    requires id in c.nodes
    requires forall g :: g != f ==> Count(n, g) == Count(c.nodes[id], g)
    ensures forall g :: g != f ==> Total(c.nodes[id := n], g) == Total(c.nodes, g)
  {
    forall g | g != f ensures Total(c.nodes[id := n], g) == Total(c.nodes, g) {
      TotalUpdate(c.nodes, id, n, g);
    }
  }

  // ------------------------------------------------------- every step keeps Inv

  /** A change of this node's count of f, after which f is recounted or, at zero, dropped. */
  lemma OneFunctionChange(c: Catalog, c': Catalog, f: string)
    requires Inv(c) && c'.nodes.Keys == c.nodes.Keys
    requires c'.nodes == c.nodes[SELF := c'.nodes[SELF]]
    requires forall g :: g != f ==> Count(c'.nodes[SELF], g) == Count(c.nodes[SELF], g)
    requires HasTimes(c'.nodes[SELF]) && Packable(c') && Named(c'.functions)
    requires forall g :: g != f && g in c.functions ==> g in c'.functions
    requires forall g :: g != f && g in c'.functions ==>
               g in c.functions && c'.functions[g].replicas == c.functions[g].replicas
    requires if f in c'.functions then c'.functions[f].replicas == Total(c'.nodes, f) else Total(c'.nodes, f) == 0
    ensures Inv(c')
  {
    OtherTotalsKept(c, SELF, c'.nodes[SELF], f);
    assert AggregateIsSum(c');
    TotalZero(c'.nodes, f);
    forall id, g | id in c'.nodes && Count(c'.nodes[id], g) > 0 ensures g in c'.functions {
      if g != f {
        assert Count(c'.nodes[id], g) == Count(c.nodes[id], g);
      }
    }
    assert RunningIsCatalogued(c');
  }

  lemma AddKeepsInv(c: Catalog, fs: FunctionStatus)
    requires Inv(c)
    ensures Inv(AddFunction(c, fs))
  {
    OneFunctionChange(c, AddFunction(c, fs), fs.name);
  }

  predicate UpdateIsSafe(c: Catalog, fs: FunctionStatus)
    requires SELF in c.nodes
  {
    fs.name in c.functions && (fs.availableReplicas > 0 ==> fs.name in c.nodes[SELF].execTime)
  }

  lemma SafeUpdateKeepsInv(c: Catalog, fs: FunctionStatus)
    requires Inv(c) && UpdateIsSafe(c, fs)
    ensures Inv(UpdateFunction(c, fs))
  {
    OneFunctionChange(c, UpdateFunction(c, fs), fs.name);
  }

  /** An update keeps the invariant exactly when the name is catalogued and a
      positive count has an execution time to go with it. */
  lemma UpdateKeepsInvIff(c: Catalog, fs: FunctionStatus)
    requires Inv(c)
    ensures Inv(UpdateFunction(c, fs)) <==>
            fs.name in c.functions && (fs.availableReplicas > 0 ==> fs.name in c.nodes[SELF].execTime)
  {
    if UpdateIsSafe(c, fs) {
      SafeUpdateKeepsInv(c, fs);
    } else {
      UnsafeUpdateBreaks(c, fs);
    }
  }

  lemma UnsafeUpdateBreaks(c: Catalog, fs: FunctionStatus)
    requires SELF in c.nodes && !UpdateIsSafe(c, fs)
    ensures var c' := UpdateFunction(c, fs);
            SELF in c'.nodes && (!HasTimes(c'.nodes[SELF]) || !Packable(c'))
  {
    var c' := UpdateFunction(c, fs);
    var n := c'.nodes[SELF];
    assert fs.name in n.replicas && n.replicas[fs.name] == fs.availableReplicas;
    assert c'.functions.Keys == c.functions.Keys;
    assert fs.name in n.replicas.Keys;
  }

  lemma DeleteUnknown(c: Catalog, f: string)
    requires Packable(c) && f !in c.functions
    ensures DeleteFunction(c, f) == c
  {
    assert c.nodes[SELF].replicas - {f} == c.nodes[SELF].replicas;
  }

  lemma DeleteRecord(c: Catalog, f: string)
    requires Packable(c) && Named(c.functions) && HasTimes(c.nodes[SELF]) && f in c.functions
    ensures var c' := DeleteFunction(c, f);
            && c'.nodes == c.nodes[SELF := c'.nodes[SELF]]
            && (forall g :: g != f ==> Count(c'.nodes[SELF], g) == Count(c.nodes[SELF], g))
            && HasTimes(c'.nodes[SELF]) && Packable(c') && Named(c'.functions)
  {
    var c' := DeleteFunction(c, f);
    var n := c'.nodes[SELF];
    assert n.replicas == c.nodes[SELF].replicas - {f} && n.execTime == c.nodes[SELF].execTime;
  }

  lemma DeleteKeepsInv(c: Catalog, f: string)
    requires Inv(c)
    ensures Inv(DeleteFunction(c, f))
  {
    if f !in c.functions {
      DeleteUnknown(c, f);
    } else {
      DeleteRecord(c, f);
      OneFunctionChange(c, DeleteFunction(c, f), f);
    }
  }

  /** Delete drops a function exactly when no peer still runs it. */
  lemma DeleteDropsIff(c: Catalog, f: string)
    requires Inv(c) && f in c.functions
    ensures f !in DeleteFunction(c, f).functions <==>
            forall id :: id in c.nodes && id != SELF ==> Count(c.nodes[id], f) == 0
    ensures DeleteFunction(c, f).functions.Keys >= c.functions.Keys - {f}
  {
    var nodes := DeleteFunction(c, f).nodes;
    TotalZero(nodes, f);
    assert forall id :: id in c.nodes && id != SELF ==> nodes[id] == c.nodes[id];
    assert Count(nodes[SELF], f) == 0;
  }

  /** The records hold the same replicas; times and flags may differ. */
  ghost predicate SameReplicas(nodes: map<string, NodeInfo>, nodes': map<string, NodeInfo>) {
    nodes'.Keys == nodes.Keys && forall id :: id in nodes ==> nodes'[id].replicas == nodes[id].replicas
  }

  lemma SameReplicasKeepInv(c: Catalog, c': Catalog)
    requires Inv(c) && SameReplicas(c.nodes, c'.nodes) && c'.functions == c.functions
    requires forall id :: id in c'.nodes ==> HasTimes(c'.nodes[id])
    ensures Inv(c')
  {
    forall f ensures Total(c'.nodes, f) == Total(c.nodes, f) {
      assert Counts(c'.nodes, f) == Counts(c.nodes, f);
    }
    forall id, f | id in c'.nodes && Count(c'.nodes[id], f) > 0 ensures f in c'.functions {
      assert Count(c.nodes[id], f) > 0;
    }
  }

  /** A record with other times or another flag. */
  lemma ChangeRecord(c: Catalog, id: string, n: NodeInfo, pending: nat)
    requires Inv(c) && id in c.nodes && n.replicas == c.nodes[id].replicas && HasTimes(n)
    ensures Inv(c.(nodes := c.nodes[id := n], pending := pending))
  {
    SameReplicasKeepInv(c, c.(nodes := c.nodes[id := n], pending := pending));
  }

  lemma SetOverloadKeepsInv(c: Catalog, overload: bool)
    requires Inv(c)
    ensures Inv(SetOverload(c, overload))
  {
    if c.nodes[SELF].overload != overload {
      ChangeRecord(c, SELF, c.nodes[SELF].(overload := overload), c.pending + 1);
    }
  }

  lemma MeasureKeepsInv(c: Catalog, id: string, f: string, loaded: int, nanoseconds: nat)
    requires Inv(c) && id in c.nodes && loaded >= 0
    ensures Inv(c.(nodes := Measure(c.nodes, id, f, loaded, nanoseconds)))
  {
    ChangeRecord(c, id, Measure(c.nodes, id, f, loaded, nanoseconds)[id], c.pending);
  }

  lemma ResetKeepsTimes(nodes: map<string, NodeInfo>, f: string)
    requires forall id :: id in nodes ==> HasTimes(nodes[id])
    ensures SameReplicas(nodes, ResetTimes(nodes, f))
    ensures forall id :: id in nodes ==> HasTimes(ResetTimes(nodes, f)[id])
  {
    forall id | id in nodes ensures HasTimes(ResetTimes(nodes, f)[id]) {
      assert HasTimes(nodes[id]);
    }
  }

  lemma ResetKeepsInv(c: Catalog, f: string)
    requires Inv(c)
    ensures Inv(c.(nodes := ResetTimes(c.nodes, f)))
  {
    ResetKeepsTimes(c.nodes, f);
    SameReplicasKeepInv(c, c.(nodes := ResetTimes(c.nodes, f)));
  }

  lemma NewPeerKeepsInv(c: Catalog, id: string)
    requires Inv(c)
    ensures Inv(NewPeer(c, id))
  {
    forall f ensures Total(NewPeer(c, id).nodes, f) == Total(c.nodes, f) {
      TotalUpdate(c.nodes, id, NO_INFO, f);
    }
  }

  /** Position i is the last one of the message that names f. */
  predicate LastEntry(fns: seq<FunctionStatus>, f: string, i: int) {
    0 <= i < |fns| && fns[i].name == f && forall j :: i < j < |fns| ==> fns[j].name != f
  }

  lemma {:induction false} MsgCountsMeaning(fns: seq<FunctionStatus>)
    ensures forall i :: 0 <= i < |fns| ==> fns[i].name in MsgCounts(fns)
    ensures forall f :: f in MsgCounts(fns) ==>
              exists i :: LastEntry(fns, f, i) && fns[i].availableReplicas == MsgCounts(fns)[f]
  {
    if fns != [] {
      var n := |fns| - 1;
      var init := fns[..n];
      MsgCountsMeaning(init);
      assert forall i :: 0 <= i < n ==> init[i] == fns[i];
      forall f | f in MsgCounts(fns)
        ensures exists i :: LastEntry(fns, f, i) && fns[i].availableReplicas == MsgCounts(fns)[f]
      {
        if f == fns[n].name {
          assert LastEntry(fns, f, n);
        } else {
          var i :| LastEntry(init, f, i) && init[i].availableReplicas == MsgCounts(init)[f];
          assert LastEntry(fns, f, i);
        }
      }
    }
  }

  /** Learning keeps what is known and covers every name of the message. */
  lemma {:induction false} LearnCovers(functions: map<string, FunctionStatus>, fns: seq<FunctionStatus>)
    ensures functions.Keys <= Learn(functions, fns).Keys
    ensures forall f :: f in functions ==> Learn(functions, fns)[f] == functions[f]
    ensures forall i :: 0 <= i < |fns| ==> fns[i].name in Learn(functions, fns)
  {
    if fns != [] {
      var init := fns[..|fns| - 1];
      LearnCovers(functions, init);
      assert forall i :: 0 <= i < |init| ==> init[i] == fns[i];
    }
  }

  /** What is new comes from the message, under its own name. */
  lemma {:induction false} LearntFrom(functions: map<string, FunctionStatus>, fns: seq<FunctionStatus>, f: string)
    requires f in Learn(functions, fns) && f !in functions
    ensures exists i :: 0 <= i < |fns| && fns[i].name == f && Learn(functions, fns)[f] == fns[i]
  {
    var init := fns[..|fns| - 1];
    if f in Learn(functions, init) {
      LearntFrom(functions, init, f);
      var i :| 0 <= i < |init| && init[i].name == f && Learn(functions, init)[f] == init[i];
      assert fns[i].name == f;
    } else {
      assert fns[|fns| - 1].name == f;
    }
  }

  lemma AbsorbHasTimes(n: NodeInfo, msg: NodeInfoMsg)
    requires HasTimes(n)
    ensures HasTimes(Absorb(n, msg))
  {
    MsgCountsMeaning(msg.functions);
    var n' := Absorb(n, msg);
    forall f | f in n'.replicas && n'.replicas[f] > 0 ensures f in n'.execTime {
      var i :| LastEntry(msg.functions, f, i) && msg.functions[i].availableReplicas == n'.replicas[f];
      assert f in RunningNames(msg.functions);
    }
  }

  lemma RecountIsSum(c: Catalog, functions: map<string, FunctionStatus>, nodes: map<string, NodeInfo>)
    requires c.nodes == nodes && c.functions == RecountAll(functions, nodes)
    ensures AggregateIsSum(c)
  {
  }

  /** Every name a message counts is learnt from it. */
  lemma CountedIsLearnt(functions: map<string, FunctionStatus>, fns: seq<FunctionStatus>)
    ensures MsgCounts(fns).Keys <= Learn(functions, fns).Keys
  {
    MsgCountsMeaning(fns);
    LearnCovers(functions, fns);
    forall f | f in MsgCounts(fns) ensures f in Learn(functions, fns) {
      var i :| LastEntry(fns, f, i);
    }
  }

  lemma UnpackKeepsRunning(c: Catalog, id: string, msg: NodeInfoMsg)
    requires RunningIsCatalogued(c) && id in c.nodes
    ensures RunningIsCatalogued(Unpack(c, id, msg))
  {
    var c' := Unpack(c, id, msg);
    CountedIsLearnt(c.functions, msg.functions);
    LearnCovers(c.functions, msg.functions);
    assert c'.functions.Keys == Learn(c.functions, msg.functions).Keys;
    forall k, f | k in c'.nodes && Count(c'.nodes[k], f) > 0 ensures f in c'.functions {
      if k == id {
        assert f in MsgCounts(msg.functions).Keys;
      } else {
        assert Count(c.nodes[k], f) > 0;
        assert f in c.functions.Keys;
      }
    }
  }

  lemma UnpackKeepsNames(c: Catalog, id: string, msg: NodeInfoMsg)
    requires Named(c.functions) && id in c.nodes
    ensures Named(Unpack(c, id, msg).functions)
    ensures c.functions.Keys <= Unpack(c, id, msg).functions.Keys
  {
    LearnCovers(c.functions, msg.functions);
    var learnt := Learn(c.functions, msg.functions);
    assert Unpack(c, id, msg).functions.Keys == learnt.Keys;
    forall f | f in learnt ensures learnt[f].name == f {
      if f !in c.functions {
        LearntFrom(c.functions, msg.functions, f);
      }
    }
  }

  /** Unpacking keeps the invariant whatever the message says. */
  lemma UnpackKeepsInv(c: Catalog, id: string, msg: NodeInfoMsg)
    requires Inv(c) && id in c.nodes && id != SELF
    ensures Inv(Unpack(c, id, msg))
  {
    var c' := Unpack(c, id, msg);
    AbsorbHasTimes(c.nodes[id], msg);
    RecountIsSum(c', Learn(c.functions, msg.functions), c'.nodes);
    UnpackKeepsRunning(c, id, msg);
    UnpackKeepsNames(c, id, msg);
  }

  // ------------------------------------------------------------- pack and unpack

  lemma PackedCounts(c: Catalog, msg: NodeInfoMsg)
    requires IsPack(c, msg)
    ensures MsgCounts(msg.functions) == c.nodes[SELF].replicas
  {
    MsgCountsMeaning(msg.functions);
    var m, r := MsgCounts(msg.functions), c.nodes[SELF].replicas;
    forall f | f in r ensures f in m {
      var i :| 0 <= i < |msg.functions| && msg.functions[i].name == f;
    }
    forall f | f in m ensures f in r && m[f] == r[f] {
      var i :| LastEntry(msg.functions, f, i) && msg.functions[i].availableReplicas == m[f];
    }
  }

  /** A packed message raises f at a record exactly when the sender holds more
      of it, and reports it running exactly when the sender runs it. */
  lemma PackedEntry(c: Catalog, msg: NodeInfoMsg, n: NodeInfo, f: string)
    requires IsPack(c, msg)
    ensures Rises(n, msg.functions, f) <==> Count(c.nodes[SELF], f) > Count(n, f)
    ensures f in RunningNames(msg.functions) <==> Count(c.nodes[SELF], f) > 0
  {
    var fns := msg.functions;
    assert forall i :: 0 <= i < |fns| ==> fns[i].availableReplicas == Count(c.nodes[SELF], fns[i].name);
    if f in c.nodes[SELF].replicas {
      var i :| 0 <= i < |fns| && fns[i].name == f;
      assert fns[i].availableReplicas == Count(c.nodes[SELF], f);
    }
  }

  /** Absorbing a packed message: exactly the functions whose count rose, or
      that had no time yet, become fresh. */
  lemma AbsorbedTimes(sender: Catalog, msg: NodeInfoMsg, n: NodeInfo, f: string)
    requires IsPack(sender, msg)
    ensures var after := Absorb(n, msg);
            && (Count(after, f) > Count(n, f) ==> f in after.execTime && after.execTime[f] == 1)
            && (f in n.execTime && Count(after, f) <= Count(n, f) ==>
                  f in after.execTime && after.execTime[f] == n.execTime[f])
            && (f in after.execTime && f !in n.execTime ==> Count(after, f) > 0)
  {
    PackedCounts(sender, msg);
    PackedEntry(sender, msg, n, f);
    assert Count(Absorb(n, msg), f) == Count(sender.nodes[SELF], f);
  }

  /** The receiver's record becomes the sender's report, zero counts included;
      exactly the functions whose count rose or had no time yet are fresh, and
      every other record is untouched. */
  lemma PackThenUnpack(sender: Catalog, msg: NodeInfoMsg, receiver: Catalog, id: string)
    requires IsPack(sender, msg) && id in receiver.nodes
    ensures var before, after := receiver.nodes[id], Unpack(receiver, id, msg).nodes[id];
            && ReportOf(after) == ReportOf(sender.nodes[SELF])
            && (forall f :: Count(after, f) > Count(before, f) ==> f in after.execTime && after.execTime[f] == 1)
            && (forall f :: f in before.execTime && Count(after, f) <= Count(before, f) ==>
                  f in after.execTime && after.execTime[f] == before.execTime[f])
            && (forall f :: f in after.execTime && f !in before.execTime ==> Count(after, f) > 0)
    ensures Unpack(receiver, id, msg).nodes - {id} == receiver.nodes - {id}
  {
    PackedCounts(sender, msg);
    forall f {
      AbsorbedTimes(sender, msg, receiver.nodes[id], f);
    }
  }

  // -------------------------------------------------- start-up and runs of one node

  /** The catalog after start-up from the functions found on this machine. */
  function Startup(fns: seq<FunctionStatus>): Catalog {
    Catalog(map[SELF := StartupRecord(fns)], StartupFunctions(fns), 0)
  }

  function StartupRecord(fns: seq<FunctionStatus>): NodeInfo {
    NodeInfo(FreshTimes(MsgCounts(fns).Keys), MsgCounts(fns), false)
  }

  function FreshTimes(fs: set<string>): map<string, int> {
    map f | f in fs :: 1
  }

  function StartupFunctions(fns: seq<FunctionStatus>): map<string, FunctionStatus> {
    if fns == [] then map[]
    else StartupFunctions(fns[..|fns| - 1])[fns[|fns| - 1].name := fns[|fns| - 1]]
  }

  /** A status read from a container has as many replicas as available replicas. */
  predicate FromContainers(fns: seq<FunctionStatus>) {
    forall i :: 0 <= i < |fns| ==> fns[i].replicas == fns[i].availableReplicas
  }

  lemma {:induction false} StartupFunctionsMeaning(fns: seq<FunctionStatus>)
    requires FromContainers(fns)
    ensures StartupFunctions(fns).Keys == MsgCounts(fns).Keys
    ensures forall f :: f in StartupFunctions(fns) ==>
              && StartupFunctions(fns)[f].name == f
              && StartupFunctions(fns)[f].replicas == MsgCounts(fns)[f]
  {
    if fns != [] {
      StartupFunctionsMeaning(fns[..|fns| - 1]);
    }
  }

  lemma StartupInv(fns: seq<FunctionStatus>)
    requires FromContainers(fns)
    ensures Inv(Startup(fns))
  {
    StartupFunctionsMeaning(fns);
    var c := Startup(fns);
    forall f ensures Total(c.nodes, f) == Count(c.nodes[SELF], f) {
      SumRemove(Counts(c.nodes, f), SELF);
      assert Counts(c.nodes, f) - {SELF} == map[];
    }
  }

  datatype Op =
    | Add(fs: FunctionStatus)
    | Update(fs: FunctionStatus)
    | Delete(f: string)
    | Overload(on: bool)
    | Peer(id: string)
    | Receive(from: string, msg: NodeInfoMsg)
    | Measured(id: string, f: string, loaded: int, nanoseconds: nat)
    | Reset(f: string)

  /** What the callers of each operation guarantee. */
  predicate Legal(c: Catalog, op: Op)
    requires SELF in c.nodes
  {
    match op
    case Update(fs) => UpdateIsSafe(c, fs)
    case Receive(id, _) => id in c.nodes && id != SELF
    case Measured(id, f, loaded, _) => id in c.nodes && f in c.nodes[id].execTime && loaded >= 0
    case _ => true
  }

  ghost function Apply(c: Catalog, op: Op): Catalog
    requires SELF in c.nodes && Legal(c, op)
  {
    match op
    case Add(fs) => AddFunction(c, fs)
    case Update(fs) => UpdateFunction(c, fs)
    case Delete(f) => DeleteFunction(c, f)
    case Overload(on) => SetOverload(c, on)
    case Peer(id) => NewPeer(c, id)
    case Receive(id, msg) => Unpack(c, id, msg)
    case Measured(id, f, loaded, ns) => c.(nodes := Measure(c.nodes, id, f, loaded, ns))
    case Reset(f) => c.(nodes := ResetTimes(c.nodes, f))
  }

  lemma ApplyKeepsInv(c: Catalog, op: Op)
    requires Inv(c) && Legal(c, op)
    ensures Inv(Apply(c, op))
  {
    match op
    case Add(fs) => AddKeepsInv(c, fs);
    case Update(fs) => SafeUpdateKeepsInv(c, fs);
    case Delete(f) => DeleteKeepsInv(c, f);
    case Overload(on) => SetOverloadKeepsInv(c, on);
    case Peer(id) => NewPeerKeepsInv(c, id);
    case Receive(id, msg) => UnpackKeepsInv(c, id, msg);
    case Measured(id, f, loaded, ns) => MeasureKeepsInv(c, id, f, loaded, ns);
    case Reset(f) => ResetKeepsInv(c, f);
  }

  /** c' is reached from c by the operations ops, each legal when it happens. */
  ghost predicate Leads(c: Catalog, ops: seq<Op>, c': Catalog)
    decreases |ops|
  {
    if ops == [] then c == c'
    else SELF in c.nodes && Legal(c, ops[0]) && Leads(Apply(c, ops[0]), ops[1..], c')
  }

  /** Aggregate equals sum, running implies catalogued, all lookups are safe and
      no time is negative after any sequence of operations, measurements, resets
      and messages of any content. */
  lemma {:induction false} RunKeepsInv(c: Catalog, ops: seq<Op>, c': Catalog)
    requires Inv(c) && Leads(c, ops, c')
    ensures Inv(c')
    decreases |ops|
  {
    if ops != [] {
      ApplyKeepsInv(c, ops[0]);
      RunKeepsInv(Apply(c, ops[0]), ops[1..], c');
    }
  }
}
