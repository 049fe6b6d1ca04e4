/** The node table as memorystore.py keeps it: a dict mutated in place by the
    assembly functions. Each method is proved to leave the table that the
    corresponding function of module Tables describes. */
module NodeTables {
  import opened Dicts
  import opened Labels
  import opened Tables

  class NodeTable {
    /** `table[inst_key][node_id]` */
    var table: Table

    ghost predicate Valid()
      reads this
    {
      WellFormed(table)
    }

    /** `table = {}` */
    constructor ()
      ensures Valid() && table == EmptyDict() && Open(table)
    {
      table := EmptyDict();
    }

    /** `_ensure_node_entry`: get the entry, inserting a fresh one (and the
        instance's dict) when missing. */
    method EnsureNodeEntry(inst: string, node: string) returns (entry: Entry)
      requires Valid()
      modifies this
      ensures Valid() && table == Ensure(old(table), inst, node)
      ensures Lookup(table, inst, node) == Some(entry)
    {
      if inst !in table.items {
        table := table.Put(inst, EmptyDict());
      }
      if node !in table.items[inst].items {
        ghost var mid := table;
        table := table.Put(inst, table.items[inst].Put(node, NewEntry(inst, node)));
        if inst !in old(table).items {
          old(table).PutPut(inst, EmptyDict(), mid.items[inst].Put(node, NewEntry(inst, node)));
        }
      }
      assert table == Ensure(old(table), inst, node);
      entry := table.items[inst].items[node];
    }

    /** The alternative command labels: the first one present wins, whatever
        its value. */
    static method AltCommand(mlabels: LabelMap) returns (cmd: string)
      ensures cmd == FirstPresent(mlabels, CommandAltLabels).GetOr("")
    {
      cmd := "";
      var k := 0;
      while k < |CommandAltLabels|
        invariant 0 <= k <= |CommandAltLabels|
        invariant FirstPresent(mlabels, CommandAltLabels) == FirstPresent(mlabels, CommandAltLabels[k..])
      {
        assert CommandAltLabels[k..][1..] == CommandAltLabels[k + 1..];
        if CommandAltLabels[k] in mlabels {
          cmd := mlabels[CommandAltLabels[k]];
          break;
        }
        k := k + 1;
      }
    }

    /** `_accumulate_commands`: for every series, fill its entry's identity
        columns and, when the series names a command, record each sample as
        `points[t][cmd] = value`. */
    method AccumulateCommands(results: seq<Series<real>>, product: string, project: string)
      requires Valid() && Open(table)
      modifies this
      ensures Valid() && Open(table)
      ensures table == AccAll(old(table), results, product, project)
    {
      for i := 0 to |results|
        invariant Valid() && Open(table)
        invariant table == AccAll(old(table), results[..i], product, project)
      {
        assert results[..i + 1][..i] == results[..i];
        AccumulateSeries(results[i], product, project);
      }
      assert results[..|results|] == results;
    }

    /** One iteration of `_accumulate_commands`' loop over the series. */
    method AccumulateSeries(s: Series<real>, product: string, project: string)
      requires Valid() && Open(table)
      modifies this
      ensures Valid() && Open(table)
      ensures table == AccOne(old(table), s, product, project)
    {
      var rlabels, mlabels := s.resource, s.metric;
      var inst := InstanceKey(rlabels);
      var node := NodeKey(rlabels);
      var entry := EnsureNodeEntry(inst, node);
      entry := FillIdentity(entry, s, product, project);

      var cmd := if "cmd" in mlabels then mlabels["cmd"] else "";
      if cmd == "" {
        cmd := AltCommand(mlabels);
      }
      if cmd == "" {
        assert CommandLabel(mlabels).None?;
        table := SetEntry(table, inst, node, entry);
        return;
      }
      assert CommandLabel(mlabels) == Some(cmd);
      var pts := AddPoints(entry.points.value, cmd, s.points);
      table := SetEntry(table, inst, node, entry.(points := Some(pts)));
    }

    /** The identity columns one command series writes into its entry. */
    static method FillIdentity(entry: Entry, s: Series<real>, product: string, project: string) returns (e: Entry)
      ensures e == Identify(entry, s, product, project)
    {
      var rlabels, mlabels := s.resource, s.metric;
      e := entry.(projectId := project, instanceId := InstanceIdLabel(rlabels));
      var region := Pick(rlabels, RegionLabels);
      var zone := Pick(rlabels, ZoneLabels);
      var nodeType := Pick(rlabels, NodeTypeLabels);
      e := e.(region := region.GetOr(e.region), zone := zone.GetOr(e.zone), nodeType := nodeType.GetOr(e.nodeType));
      var role := RoleLabel(mlabels, rlabels);
      if role != "" {
        e := e.(nodeRole := NormaliseRole(role));
      }
      e := e.(instanceType := product);
    }

    /** The loop over a command series' samples: `points[t][cmd] = value`,
        creating `points[t]` first when missing. */
    static method AddPoints(points: Points, cmd: string, samples: seq<Sample<real>>) returns (pts: Points)
      requires PointsValid(points)
      ensures pts == AddSamples(points, cmd, samples)
    {
      pts := points;
      for j := 0 to |samples|
        invariant pts == AddSamples(points, cmd, samples[..j])
      {
        assert samples[..j + 1][..j] == samples[..j];
        StoreSample(pts, cmd, samples[j]);
        var t := samples[j].t;
        if t !in pts.items {
          pts := pts.Put(t, EmptyDict());
        }
        pts := pts.Put(t, pts.items[t].Put(cmd, samples[j].v));
      }
      assert samples[..|samples|] == samples;
    }

    /** The running maximum of one gauge series (`maxv`, `v_max`). */
    static method PeakOf(samples: seq<Sample<int>>) returns (maxv: int)
      ensures maxv == SeriesMax(samples)
    {
      maxv := 0;
      for j := 0 to |samples|
        invariant maxv == SeriesMax(samples[..j])
      {
        assert samples[..j + 1][..j] == samples[..j];
        var v := samples[j].v;
        if v > maxv {
          maxv := v;
        }
      }
      assert samples[..|samples|] == samples;
    }

    /** `_attach_memory_usage`: every series raises its node's
        BytesUsedForCache to the largest sample (at least 0), creating the
        node's entry when missing. */
    method AttachMemoryUsage(results: seq<Series<int>>)
      requires Valid()
      modifies this
      ensures Valid()
      ensures table == MemAll(old(table), results)
    {
      for i := 0 to |results|
        invariant Valid()
        invariant table == MemAll(old(table), results[..i])
      {
        assert results[..i + 1][..i] == results[..i];
        var s := results[i];
        var inst := InstanceKey(s.resource);
        var node := NodeKey(s.resource);
        if inst !in table.items || node !in table.items[inst].items {
          var created := EnsureNodeEntry(inst, node);
        }
        var entry := table.items[inst].items[node];
        var maxv := PeakOf(s.points);
        var prev := entry.bytesUsedForCache.GetOr(0);
        table := SetEntry(table, inst, node, entry.(bytesUsedForCache := Some(Max(prev, maxv))));
      }
      assert results[..|results|] == results;
    }

    /** The first loop of `_attach_capacity_scalar`: `cap_by_inst`. */
    static method CapacityByInstance(results: seq<Series<int>>) returns (capByInst: map<string, int>)
      ensures capByInst == CapByInst(results)
    {
      capByInst := map[];
      for i := 0 to |results|
        invariant capByInst == CapByInst(results[..i])
      {
        assert results[..i + 1][..i] == results[..i];
        var s := results[i];
        var inst := InstanceKey(s.resource);
        var vMax := PeakOf(s.points);
        if inst !in capByInst {
          capByInst := capByInst[inst := 0];
        }
        if vMax > capByInst[inst] {
          capByInst := capByInst[inst := vMax];
        }
      }
      assert results[..|results|] == results;
    }

    /** `_attach_capacity_scalar`: the per-instance maximum over all series,
        written to every node of each instance that has one. */
    method AttachCapacityScalar(results: seq<Series<int>>)
      requires Valid()
      modifies this
      ensures Valid()
      ensures table == ApplyCaps(old(table), CapByInst(results))
    {
      var capByInst := CapacityByInstance(results);
      ghost var start := table;
      var insts := table.keys;
      for i := 0 to |insts|
        invariant table == start.MapFirst(CapInstance(capByInst), i)
      {
        var inst := insts[i];
        start.MapFirstStep(CapInstance(capByInst), i);
        if inst in capByInst {
          var nodes := CapAll(table.items[inst], capByInst[inst]);
          table := table.Put(inst, nodes);
        } else {
          assert table.Put(inst, table.items[inst]).items == table.items;
        }
      }
      start.MapFirstEnd(CapInstance(capByInst));
    }

    /** `for node_id in nodes: nodes[node_id][key_name] = v` */
    static method CapAll(nodes: Nodes, v: int) returns (r: Nodes)
      requires nodes.Valid()
      ensures r == CapNodes(nodes, v)
    {
      r := nodes;
      nodes.MapFirstStart(CapEntry(v));
      var nodeKeys := nodes.keys;
      for j := 0 to |nodeKeys|
        invariant r == nodes.MapFirst(CapEntry(v), j)
      {
        var node := nodeKeys[j];
        nodes.MapFirstStep(CapEntry(v), j);
        r := r.Put(node, r.items[node].(maxMemory := Some(v)));
      }
      nodes.MapFirstEnd(CapEntry(v));
    }

    /** `_apply_processed_categories`: classify each timestamp of each entry,
        reduce them into `commandstats` (`{}` when there is none) and delete
        `points`. */
    method ApplyProcessedCategories(classify: Classifier, reduce: Reducer)
      requires Valid()
      modifies this
      ensures Valid()
      ensures table == ApplyAll(old(table), classify, reduce)
    {
      ghost var start := table;
      start.MapFirstStart(FinaliseInstance(classify, reduce));
      var insts := table.keys;
      for i := 0 to |insts|
        invariant table == start.MapFirst(FinaliseInstance(classify, reduce), i)
      {
        var inst := insts[i];
        start.MapFirstStep(FinaliseInstance(classify, reduce), i);
        var nodes := FinaliseAll(inst, table.items[inst], classify, reduce);
        table := table.Put(inst, nodes);
      }
      start.MapFirstEnd(FinaliseInstance(classify, reduce));
    }

    /** The loop over one instance's nodes in `_apply_processed_categories`. */
    static method FinaliseAll(ghost inst: string, nodes: Nodes, classify: Classifier, reduce: Reducer) returns (r: Nodes)
      requires NodesValid(nodes, inst)
      ensures r == FinaliseNodes(nodes, classify, reduce)
    {
      r := nodes;
      nodes.MapFirstStart(FinaliseEntry(classify, reduce));
      var nodeKeys := nodes.keys;
      for j := 0 to |nodeKeys|
        invariant r == nodes.MapFirst(FinaliseEntry(classify, reduce), j)
      {
        var node := nodeKeys[j];
        nodes.MapFirstStep(FinaliseEntry(classify, reduce), j);
        var entry := r.items[node];
        var processed := Process(entry.points.GetOr(EmptyDict()), classify);
        entry := entry.(commandstats := Some(if processed.keys != [] then reduce(processed) else EmptyDict()));
        entry := entry.(points := None);
        r := r.Put(node, entry);
      }
      nodes.MapFirstEnd(FinaliseEntry(classify, reduce));
    }

    /** `processed[ts] = classify(cmdmap)` for each timestamp, in order. */
    static method Process(points: Points, classify: Classifier) returns (processed: Dict<real, CategoryVector>)
      requires points.Valid()
      ensures processed == points.MapValues(classify)
    {
      processed := EmptyDict();
      for k := 0 to |points.keys|
        invariant processed.keys == points.keys[..k]
        invariant processed.items == map t | t in points.keys[..k] :: classify(points.items[t])
      {
        var t := points.keys[k];
        assert t !in points.keys[..k];
        assert points.keys[..k + 1] == points.keys[..k] + [t];
        processed := processed.Put(t, classify(points.items[t]));
      }
      assert points.keys[..|points.keys|] == points.keys;
    }

    /** `_flatten_rows`: stamp each entry with the project and instance type
        when those are non-empty, and emit its row, instance by instance and
        node by node. */
    method FlattenRows(project: string, instanceType: string) returns (rows: seq<Row>)
      requires Valid()
      modifies this
      ensures Valid() && table == StampAll(old(table), project, instanceType)
      ensures rows == Rows(table)
    {
      ghost var start := table;
      ghost var target := StampAll(table, project, instanceType);
      start.MapFirstStart(StampInstance(project, instanceType));
      rows := [];
      var insts := table.keys;
      for i := 0 to |insts|
        invariant table == start.MapFirst(StampInstance(project, instanceType), i)
        invariant rows == TableRows(target, i, RowOf)
      {
        var inst := insts[i];
        start.MapFirstStep(StampInstance(project, instanceType), i);
        var nodes, nodeRows := StampRows(table.items[inst], project, instanceType);
        rows := rows + nodeRows;
        table := table.Put(inst, nodes);
      }
      start.MapFirstEnd(StampInstance(project, instanceType));
    }

    /** The loop over one instance's nodes in `_flatten_rows`. */
    static method StampRows(nodes: Nodes, project: string, instanceType: string) returns (r: Nodes, rows: seq<Row>)
      requires nodes.Valid()
      ensures r == StampNodes(nodes, project, instanceType)
      ensures rows == NodeRows(r, |r.keys|, RowOf)
    {
      ghost var target := StampNodes(nodes, project, instanceType);
      r := nodes;
      nodes.MapFirstStart(StampEntry(project, instanceType));
      rows := [];
      var nodeKeys := nodes.keys;
      for j := 0 to |nodeKeys|
        invariant r == nodes.MapFirst(StampEntry(project, instanceType), j)
        invariant rows == NodeRows(target, j, RowOf)
      {
        var node := nodeKeys[j];
        nodes.MapFirstStep(StampEntry(project, instanceType), j);
        var entry := Stamp(r.items[node], project, instanceType);
        r := r.Put(node, entry);
        var row := AsDict(entry);
        row := row.Update(StatCells(entry));
        row := row.Remove("commandstats");
        rows := rows + [row];
      }
      nodes.MapFirstEnd(StampEntry(project, instanceType));
    }
  }
}
