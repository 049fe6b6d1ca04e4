/** The node table of memorystore.py as a value: one entry per (instance key,
    node id), nested as `table[inst][node]`, and the functions that give the
    table each operation leaves behind. The class in node_table.dfy performs
    these operations in place; the lemmas in accumulate_properties.dfy,
    memory_properties.dfy and report_properties.dfy state what they
    guarantee. */
module Tables {
  import opened Dicts
  import opened Labels

  /** One monitoring sample: the start of its interval, in seconds, and its
      already-decoded value. */
  datatype Sample<V> = Sample(t: real, v: V)

  /** One fetched time series: resource labels, metric labels and samples. */
  datatype Series<V> = Series(resource: LabelMap, metric: LabelMap, points: seq<Sample<V>>)

  /** One timestamp's rates: command name -> calls per second. */
  type CommandRates = Dict<string, real>
  /** An entry's `points`: timestamp -> command name -> rate. */
  type Points = Dict<real, CommandRates>
  /** A per-timestamp category vector, as the classifier returns it. */
  type CategoryVector = Dict<string, int>
  /** A node summary, as the reducer returns it (a Python dict). */
  type Stats = d: Dict<string, int> | d.Valid() witness EmptyDict()

  /** The classifier (`processMetricPoint`) and the reducer
      (`processNodeStats`); their code is not part of this model. */
  type Classifier = CommandRates -> CategoryVector
  type Reducer = Dict<real, CategoryVector> -> Stats

  /** A node entry. The ten string columns are always present; the four
      `Option` fields are dict keys that an entry may or may not hold. */
  datatype Entry = Entry(
    source: string,
    clusterId: string,
    nodeId: string,
    nodeRole: string,
    nodeType: string,
    region: string,
    zone: string,
    projectId: string,
    instanceId: string,
    instanceType: string,
    points: Option<Points>,
    bytesUsedForCache: Option<int>,
    maxMemory: Option<int>,
    commandstats: Option<Stats>)

  type Nodes = Dict<string, Entry>
  type Table = Dict<string, Nodes>

  ghost predicate PointsValid(p: Points) {
    p.Valid() && forall t :: t in p.items ==> p.items[t].Valid()
  }

  /** The entry stored under `table[inst][node]` keeps the identity it was
      created with. */
  ghost predicate EntryValid(e: Entry, inst: string, node: string) {
    && e.source == "MS"
    && e.clusterId == inst
    && e.nodeId == node
    && (e.points.Some? ==> PointsValid(e.points.value))
  }

  ghost predicate NodesValid(nodes: Nodes, inst: string) {
    nodes.Valid() && forall node :: node in nodes.items ==> EntryValid(nodes.items[node], inst, node)
  }

  /** The invariant every operation keeps. */
  ghost predicate WellFormed(t: Table) {
    t.Valid() && forall inst :: inst in t.items ==> NodesValid(t.items[inst], inst)
  }

  /** Every entry still holds its `points` (the table has not been finalised). */
  ghost predicate Open(t: Table) {
    forall inst, node :: Lookup(t, inst, node).Some? ==> Lookup(t, inst, node).value.points.Some?
  }

  /** `table[inst][node]`, `None` when either key is missing. */
  function Lookup(t: Table, inst: string, node: string): Option<Entry> {
    if inst in t.items && node in t.items[inst].items then Some(t.items[inst].items[node]) else None
  }

  /** Overwrite an entry that exists. */
  function SetEntry(t: Table, inst: string, node: string, e: Entry): (r: Table)
    requires WellFormed(t) && Lookup(t, inst, node).Some? && EntryValid(e, inst, node)
    ensures WellFormed(r)
    ensures r.keys == t.keys
    ensures inst in r.items && r.items[inst].keys == t.items[inst].keys
    ensures Lookup(r, inst, node) == Some(e)
    ensures forall i, n :: (i != inst || n != node) ==> Lookup(r, i, n) == Lookup(t, i, n)
    ensures Open(t) && e.points.Some? ==> Open(r)
  {
    t.Put(inst, t.items[inst].Put(node, e))
  }

  // ---------------------------------------------------------------- _ensure_node_entry

  /** The entry `_ensure_node_entry` creates. */
  function NewEntry(inst: string, node: string): Entry {
    Entry("MS", inst, node, "", "", "", "", "", "", "", Some(EmptyDict()), None, None, None)
  }

  /** The table after `_ensure_node_entry(table, inst, node)`. */
  function Ensure(t: Table, inst: string, node: string): (r: Table)
    requires WellFormed(t)
    ensures WellFormed(r)
    ensures Lookup(r, inst, node) == Some(Lookup(t, inst, node).GetOr(NewEntry(inst, node)))
    ensures forall i, n :: (i != inst || n != node) ==> Lookup(r, i, n) == Lookup(t, i, n)
    ensures r.keys == if inst in t.items then t.keys else t.keys + [inst]
    ensures Open(t) ==> Open(r)
  {
    var nodes := if inst in t.items then t.items[inst] else EmptyDict();
    if node in nodes.items then t
    else
      var r := t.Put(inst, nodes.Put(node, NewEntry(inst, node)));
      assert NodesValid(r.items[inst], inst);
      r
  }

  // ---------------------------------------------------------------- _accumulate_commands

  /** `points[t][cmd] = v`, creating the timestamp's dict when missing. */
  function AddSample(p: Points, cmd: string, s: Sample<real>): (r: Points)
    requires PointsValid(p)
    ensures PointsValid(r)
  {
    var rates := if s.t in p.items then p.items[s.t] else EmptyDict();
    p.Put(s.t, rates.Put(cmd, s.v))
  }

  /** The two statements of the source that store one sample leave `AddSample`'s result. */
  lemma StoreSample(p: Points, cmd: string, s: Sample<real>)
    requires PointsValid(p)
    ensures var p1 := if s.t !in p.items then p.Put(s.t, EmptyDict()) else p;
            p1.Put(s.t, p1.items[s.t].Put(cmd, s.v)) == AddSample(p, cmd, s)
  {
  }

  /** The loop over a series' samples, in order. */
  function AddSamples(p: Points, cmd: string, ss: seq<Sample<real>>): (r: Points)
    requires PointsValid(p)
    ensures PointsValid(r)
    decreases |ss|
  {
    if ss == [] then p else AddSample(AddSamples(p, cmd, ss[..|ss| - 1]), cmd, ss[|ss| - 1])
  }

  /** The identity columns a command series sets on its entry. */
  function Identify(e: Entry, s: Series<real>, product: string, project: string): Entry {
    var role := RoleLabel(s.metric, s.resource);
    e.(projectId := project,
       instanceId := InstanceIdLabel(s.resource),
       region := FirstNonEmpty(s.resource, RegionLabels).GetOr(e.region),
       zone := FirstNonEmpty(s.resource, ZoneLabels).GetOr(e.zone),
       nodeType := FirstNonEmpty(s.resource, NodeTypeLabels).GetOr(e.nodeType),
       nodeRole := if role != "" then NormaliseRole(role) else e.nodeRole,
       instanceType := product)
  }

  /** What one command series does to its entry: the identity columns, then
      the samples under the command name when the series has one. */
  function AccEntry(e: Entry, s: Series<real>, product: string, project: string): Entry
    requires e.points.Some? && PointsValid(e.points.value)
  {
    var e1 := Identify(e, s, product, project);
    match CommandLabel(s.metric)
    case None => e1
    case Some(cmd) => e1.(points := Some(AddSamples(e1.points.value, cmd, s.points)))
  }

  /** The table after one iteration of `_accumulate_commands`' outer loop. */
  function AccOne(t: Table, s: Series<real>, product: string, project: string): (r: Table)
    requires WellFormed(t) && Open(t)
    ensures WellFormed(r) && Open(r)
  {
    var inst := InstanceKey(s.resource);
    var node := NodeKey(s.resource);
    var t1 := Ensure(t, inst, node);
    SetEntry(t1, inst, node, AccEntry(t1.items[inst].items[node], s, product, project))
  }

  /** The table after `_accumulate_commands(results, table, product, project)`. */
  function AccAll(t: Table, rs: seq<Series<real>>, product: string, project: string): (r: Table)
    requires WellFormed(t) && Open(t)
    ensures WellFormed(r) && Open(r)
    decreases |rs|
  {
    if rs == [] then t else AccOne(AccAll(t, rs[..|rs| - 1], product, project), rs[|rs| - 1], product, project)
  }

  // ---------------------------------------------------------------- _attach_memory_usage

  /** The running maximum `maxv` of a series: starts at 0 and takes every
      larger sample value. */
  function SeriesMax(ss: seq<Sample<int>>): int
    decreases |ss|
  {
    if ss == [] then 0
    else
      var m := SeriesMax(ss[..|ss| - 1]);
      if ss[|ss| - 1].v > m then ss[|ss| - 1].v else m
  }

  function Max(a: int, b: int): int {
    if a >= b then a else b
  }

  /** What one memory series does to its entry: BytesUsedForCache becomes the
      larger of its previous value (0 when absent) and the series' maximum. */
  function MemEntry(e: Entry, s: Series<int>): Entry {
    e.(bytesUsedForCache := Some(Max(e.bytesUsedForCache.GetOr(0), SeriesMax(s.points))))
  }

  /** The table after one iteration of `_attach_memory_usage`' outer loop. */
  function MemOne(t: Table, s: Series<int>): (r: Table)
    requires WellFormed(t)
    ensures WellFormed(r)
  {
    var inst := InstanceKey(s.resource);
    var node := NodeKey(s.resource);
    var t1 := Ensure(t, inst, node);
    SetEntry(t1, inst, node, MemEntry(t1.items[inst].items[node], s))
  }

  /** The table after `_attach_memory_usage(results, table)`. */
  function MemAll(t: Table, rs: seq<Series<int>>): (r: Table)
    requires WellFormed(t)
    ensures WellFormed(r)
    decreases |rs|
  {
    if rs == [] then t else MemOne(MemAll(t, rs[..|rs| - 1]), rs[|rs| - 1])
  }

  // ---------------------------------------------------------------- _attach_capacity_scalar

  /** `cap_by_inst` after its loop. Reading the `defaultdict` inserts the key
      with 0 before the comparison, so every instance key of `rs` is present. */
  function CapByInst(rs: seq<Series<int>>): (cap: map<string, int>)
    decreases |rs|
  {
    if rs == [] then map[]
    else
      var n := |rs| - 1;
      var cap := CapByInst(rs[..n]);
      var k := InstanceKey(rs[n].resource);
      var prev := if k in cap then cap[k] else 0;
      var vmax := SeriesMax(rs[n].points);
      cap[k := if vmax > prev then vmax else prev]
  }

  /** `nodes[node_id][key_name] = v` */
  function CapEntry(v: int): (string, Entry) -> Entry {
    (node: string, e: Entry) => e.(maxMemory := Some(v))
  }

  /** Every node of an instance gets the capacity value. */
  function CapNodes(nodes: Nodes, v: int): Nodes {
    nodes.MapWithKey(CapEntry(v))
  }

  /** An instance's nodes after the second loop: capped when the instance has
      a value in `cap`, untouched otherwise. */
  function CapInstance(cap: map<string, int>): (string, Nodes) -> Nodes {
    (inst: string, nodes: Nodes) => if inst in cap then CapNodes(nodes, cap[inst]) else nodes
  }

  /** The table after the second loop of `_attach_capacity_scalar`. */
  function ApplyCaps(t: Table, cap: map<string, int>): (r: Table)
    requires WellFormed(t)
    ensures WellFormed(r)
  {
    t.MapWithKey(CapInstance(cap))
  }

  // ---------------------------------------------------------------- _apply_processed_categories

  /** One entry after `_apply_processed_categories`: each timestamp's rates
      classified, the result reduced when there is at least one timestamp,
      `{}` otherwise, and `points` deleted. */
  function Finalise(e: Entry, classify: Classifier, reduce: Reducer): Entry {
    var processed := e.points.GetOr(EmptyDict()).MapValues(classify);
    e.(points := None, commandstats := Some(if processed.keys != [] then reduce(processed) else EmptyDict()))
  }

  function FinaliseEntry(classify: Classifier, reduce: Reducer): (string, Entry) -> Entry {
    (node: string, e: Entry) => Finalise(e, classify, reduce)
  }

  function FinaliseNodes(nodes: Nodes, classify: Classifier, reduce: Reducer): Nodes {
    nodes.MapWithKey(FinaliseEntry(classify, reduce))
  }

  function FinaliseInstance(classify: Classifier, reduce: Reducer): (string, Nodes) -> Nodes {
    (inst: string, nodes: Nodes) => FinaliseNodes(nodes, classify, reduce)
  }

  /** The table after `_apply_processed_categories(table)`. */
  function ApplyAll(t: Table, classify: Classifier, reduce: Reducer): (r: Table)
    requires WellFormed(t)
    ensures WellFormed(r)
  {
    t.MapWithKey(FinaliseInstance(classify, reduce))
  }

  // ---------------------------------------------------------------- _flatten_rows

  /** A report cell. */
  datatype Cell = Text(s: string) | Num(n: int) | Samples(p: Points) | Categories(c: Stats)

  /** A report row: column name -> cell. */
  type Row = Dict<string, Cell>

  /** The ten columns every entry is created with, in creation order. */
  const EntryColumns: seq<string> :=
    ["Source", "ClusterId", "NodeId", "NodeRole", "NodeType", "Region", "Zone", "Project ID", "InstanceId", "InstanceType"]

  /** The ten columns with the entry's values. */
  function BaseColumns(e: Entry): Row {
    Dict(EntryColumns,
         map["Source" := Text(e.source), "ClusterId" := Text(e.clusterId), "NodeId" := Text(e.nodeId),
             "NodeRole" := Text(e.nodeRole), "NodeType" := Text(e.nodeType), "Region" := Text(e.region),
             "Zone" := Text(e.zone), "Project ID" := Text(e.projectId), "InstanceId" := Text(e.instanceId),
             "InstanceType" := Text(e.instanceType)])
  }

  lemma EntryColumnsDistinct()
    ensures Distinct(EntryColumns)
  {
    forall i, j | 0 <= i < j < |EntryColumns| ensures EntryColumns[i] != EntryColumns[j] {
      assert |EntryColumns[i]| != |EntryColumns[j]| || EntryColumns[i][0] != EntryColumns[j][0] || EntryColumns[i][4] != EntryColumns[j][4];
    }
  }

  lemma BaseColumnsValid(e: Entry)
    ensures BaseColumns(e).Valid()
  {
    EntryColumnsDistinct();
  }

  /** The Python dict an entry is: the ten columns, then the optional keys in
      the order the collector adds them. */
  function AsDict(e: Entry): (d: Row)
    ensures d.Valid()
  {
    BaseColumnsValid(e);
    var d0 := BaseColumns(e);
    var d1 := if e.points.Some? then d0.Put("points", Samples(e.points.value)) else d0;
    var d2 := if e.bytesUsedForCache.Some? then d1.Put("BytesUsedForCache", Num(e.bytesUsedForCache.value)) else d1;
    var d3 := if e.maxMemory.Some? then d2.Put("MaxMemory", Num(e.maxMemory.value)) else d2;
    if e.commandstats.Some? then d3.Put("commandstats", Categories(e.commandstats.value)) else d3
  }

  /** The entry's category values as cells. */
  function StatCells(e: Entry): (r: Row)
    ensures r.Valid()
  {
    e.commandstats.GetOr(EmptyDict()).MapValues((n: int) => Num(n))
  }

  /** `row = {**entry}; row.update(entry.get("commandstats", {})); row.pop("commandstats", None)` */
  function RowOf(e: Entry): (r: Row)
    ensures r.Valid()
  {
    AsDict(e).Update(StatCells(e)).Remove("commandstats")
  }

  /** The two columns `_flatten_rows` overwrites when it is given a non-empty value. */
  function Stamp(e: Entry, project: string, instanceType: string): Entry {
    e.(projectId := if project != "" then project else e.projectId,
       instanceType := if instanceType != "" then instanceType else e.instanceType)
  }

  function StampEntry(project: string, instanceType: string): (string, Entry) -> Entry {
    (node: string, e: Entry) => Stamp(e, project, instanceType)
  }

  function StampNodes(nodes: Nodes, project: string, instanceType: string): Nodes {
    nodes.MapWithKey(StampEntry(project, instanceType))
  }

  function StampInstance(project: string, instanceType: string): (string, Nodes) -> Nodes {
    (inst: string, nodes: Nodes) => StampNodes(nodes, project, instanceType)
  }

  /** The table after `_flatten_rows` has stamped every entry. */
  function StampAll(t: Table, project: string, instanceType: string): (r: Table)
    requires WellFormed(t)
    ensures WellFormed(r)
  {
    t.MapWithKey(StampInstance(project, instanceType))
  }

  /** `row` of each of the first `k` nodes of `nodes`, in the dict's order. */
  function NodeRows<R>(nodes: Nodes, k: nat, row: Entry -> R): seq<R>
    requires nodes.Valid() && k <= |nodes.keys|
  {
    if k == 0 then [] else NodeRows(nodes, k - 1, row) + [row(nodes.items[nodes.keys[k - 1]])]
  }

  /** `row` of each node of the first `k` instances of `t`, in the dict's order. */
  function TableRows<R>(t: Table, k: nat, row: Entry -> R): seq<R>
    requires WellFormed(t) && k <= |t.keys|
  {
    if k == 0 then []
    else
      var nodes := t.items[t.keys[k - 1]];
      TableRows(t, k - 1, row) + NodeRows(nodes, |nodes.keys|, row)
  }

  /** The (instance key, node id) pairs of `t`, in iteration order. */
  function NodePairs(inst: string, nodes: Nodes, k: nat): seq<(string, string)>
    requires k <= |nodes.keys|
  {
    if k == 0 then [] else NodePairs(inst, nodes, k - 1) + [(inst, nodes.keys[k - 1])]
  }

  function TablePairs(t: Table, k: nat): seq<(string, string)>
    requires WellFormed(t) && k <= |t.keys|
  {
    if k == 0 then []
    else
      var inst := t.keys[k - 1];
      TablePairs(t, k - 1) + NodePairs(inst, t.items[inst], |t.items[inst].keys|)
  }

  /** The rows `_flatten_rows` returns for a table it has stamped. */
  function Rows(t: Table): seq<Row>
    requires WellFormed(t)
  {
    TableRows(t, |t.keys|, RowOf)
  }

  function Pairs(t: Table): seq<(string, string)>
    requires WellFormed(t)
  {
    TablePairs(t, |t.keys|)
  }
}
