/** What `_apply_processed_categories` and `_flatten_rows` guarantee: every
    entry is summarised and loses its samples, and the report has exactly one
    row per (instance key, node id), in the table's order, with the entry's
    columns and its categories in place of `commandstats`. */
module ReportProperties {
  import opened Dicts
  import opened Tables

  // ---------------------------------------------------------------- _apply_processed_categories

  /** The pass visits every entry and no other: each entry is replaced by
      `Finalise` of it, and no key moves. */
  lemma ApplyAllLookup(t: Table, classify: Classifier, reduce: Reducer, inst: string, node: string)
    requires WellFormed(t)
    ensures Lookup(ApplyAll(t, classify, reduce), inst, node) ==
              match Lookup(t, inst, node)
              case None => None
              case Some(e) => Some(Finalise(e, classify, reduce))
    ensures ApplyAll(t, classify, reduce).keys == t.keys
    ensures inst in t.items ==> ApplyAll(t, classify, reduce).items[inst].keys == t.items[inst].keys
  {
  }

  /** A finalised entry has no `points`; its `commandstats` is `{}` when it had
      no samples (no `points`, or no timestamp) and otherwise the reducer's
      summary of the classified timestamps, one classified vector per
      timestamp; all other columns are kept. */
  lemma FinaliseMeaning(e: Entry, classify: Classifier, reduce: Reducer)
    requires e.points.Some? ==> e.points.value.Valid()
    ensures var f := Finalise(e, classify, reduce);
            && f.points.None?
            && f.commandstats.Some?
            && f.(points := e.points, commandstats := e.commandstats) == e
    ensures e.points.None? || e.points.value.items == map[] ==>
              Finalise(e, classify, reduce).commandstats.value == EmptyDict()
    ensures e.points.Some? && e.points.value.items != map[] ==>
              exists processed: Dict<real, CategoryVector> ::
                && processed.keys == e.points.value.keys
                && (forall t :: t in processed.items <==> t in e.points.value.items)
                && (forall t :: t in processed.items ==> processed.items[t] == classify(e.points.value.items[t]))
                && Finalise(e, classify, reduce).commandstats == Some(reduce(processed))
  {
    if e.points.Some? {
      var p := e.points.value;
      if p.keys == [] {
        assert p.items == map[];
      } else {
        assert p.keys[0] in p.items;
      }
    }
  }

  /** After the pass no entry holds samples and every entry holds a summary. */
  lemma ApplyAllCloses(t: Table, classify: Classifier, reduce: Reducer)
    requires WellFormed(t)
    ensures forall inst, node :: Lookup(ApplyAll(t, classify, reduce), inst, node).Some? ==>
              && Lookup(ApplyAll(t, classify, reduce), inst, node).value.points.None?
              && Lookup(ApplyAll(t, classify, reduce), inst, node).value.commandstats.Some?
  {
    forall inst, node | Lookup(ApplyAll(t, classify, reduce), inst, node).Some?
      ensures Lookup(ApplyAll(t, classify, reduce), inst, node).value.points.None?
      ensures Lookup(ApplyAll(t, classify, reduce), inst, node).value.commandstats.Some?
    {
      ApplyAllLookup(t, classify, reduce, inst, node);
    }
  }

  // ---------------------------------------------------------------- _flatten_rows

  /** Stamping overwrites "Project ID" and "InstanceType" only with a
      non-empty value, visits every entry and adds none. */
  lemma StampAllLookup(t: Table, project: string, instanceType: string, inst: string, node: string)
    requires WellFormed(t)
    ensures Lookup(StampAll(t, project, instanceType), inst, node) ==
              match Lookup(t, inst, node)
              case None => None
              case Some(e) => Some(Stamp(e, project, instanceType))
    ensures Lookup(t, inst, node).Some? ==>
              var e, s := Lookup(t, inst, node).value, Lookup(StampAll(t, project, instanceType), inst, node).value;
              && s.projectId == (if project != "" then project else e.projectId)
              && s.instanceType == (if instanceType != "" then instanceType else e.instanceType)
  {
  }

  /** A row holds no "commandstats" column; every other column comes from
      the category summary when it names it and from the entry otherwise. */
  lemma RowOfContents(e: Entry)
    ensures "commandstats" !in RowOf(e).items
    ensures forall k :: k != "commandstats" ==>
              (k in RowOf(e).items <==> k in AsDict(e).items || k in StatCells(e).items)
    ensures forall k :: k != "commandstats" && k in StatCells(e).items ==>
              RowOf(e).items[k] == StatCells(e).items[k]
    ensures forall k :: k != "commandstats" && k !in StatCells(e).items && k in AsDict(e).items ==>
              RowOf(e).items[k] == AsDict(e).items[k]
  {
  }

  /** The dict `_ensure_node_entry` creates: the ten columns in creation
      order, then "points"; source "MS", the instance key and the node id,
      the other seven columns empty and no samples. */
  lemma NewEntryDict(inst: string, node: string)
    ensures AsDict(NewEntry(inst, node)).keys == EntryColumns + ["points"]
    ensures var d := AsDict(NewEntry(inst, node)).items;
            && d["Source"] == Text("MS") && d["ClusterId"] == Text(inst) && d["NodeId"] == Text(node)
            && d["NodeRole"] == Text("") && d["NodeType"] == Text("")
            && d["Region"] == Text("") && d["Zone"] == Text("")
            && d["Project ID"] == Text("") && d["InstanceId"] == Text("")
            && d["InstanceType"] == Text("")
            && d["points"] == Samples(EmptyDict())
  {
    NewEntryDictIsBasePlusPoints(inst, node);
    NewEntryColumns(inst, node);
  }

  /** The ten columns of a new entry, and that "points" is not among them. */
  lemma NewEntryColumns(inst: string, node: string)
    ensures var base := BaseColumns(NewEntry(inst, node));
            && base.keys == EntryColumns && "points" !in base.items
            && base.items["Source"] == Text("MS") && base.items["ClusterId"] == Text(inst) && base.items["NodeId"] == Text(node)
            && base.items["NodeRole"] == Text("") && base.items["NodeType"] == Text("")
            && base.items["Region"] == Text("") && base.items["Zone"] == Text("")
            && base.items["Project ID"] == Text("") && base.items["InstanceId"] == Text("")
            && base.items["InstanceType"] == Text("")
  {
  }

  /** A new entry's dict is its ten columns with "points" written last. */
  lemma NewEntryDictIsBasePlusPoints(inst: string, node: string)
    ensures AsDict(NewEntry(inst, node)) == BaseColumns(NewEntry(inst, node)).Put("points", Samples(EmptyDict()))
  {
  }

  /** An entry's dict holds the ten columns with the entry's values. */
  lemma AsDictBase(e: Entry)
    ensures forall k :: k in BaseColumns(e).items ==> k in AsDict(e).items && AsDict(e).items[k] == BaseColumns(e).items[k]
  {
    var d0 := BaseColumns(e);
    assert "points" !in d0.items && "BytesUsedForCache" !in d0.items && "MaxMemory" !in d0.items && "commandstats" !in d0.items;
    var d1 := if e.points.Some? then d0.Put("points", Samples(e.points.value)) else d0;
    assert forall k :: k in d0.items ==> k in d1.items && d1.items[k] == d0.items[k];
    var d2 := if e.bytesUsedForCache.Some? then d1.Put("BytesUsedForCache", Num(e.bytesUsedForCache.value)) else d1;
    assert forall k :: k in d0.items ==> k in d2.items && d2.items[k] == d0.items[k];
    var d3 := if e.maxMemory.Some? then d2.Put("MaxMemory", Num(e.maxMemory.value)) else d2;
    assert forall k :: k in d0.items ==> k in d3.items && d3.items[k] == d0.items[k];
    var d4 := if e.commandstats.Some? then d3.Put("commandstats", Categories(e.commandstats.value)) else d3;
    assert forall k :: k in d0.items ==> k in d4.items && d4.items[k] == d0.items[k];
    assert AsDict(e) == d4;
  }

  /** Beyond the ten columns, an entry's dict holds "points" while it has
      samples, and the two memory columns and "commandstats" when they are set. */
  lemma AsDictOptional(e: Entry)
    ensures var d := AsDict(e).items;
            && ("points" in d <==> e.points.Some?)
            && ("BytesUsedForCache" in d <==> e.bytesUsedForCache.Some?)
            && (e.bytesUsedForCache.Some? ==> d["BytesUsedForCache"] == Num(e.bytesUsedForCache.value))
            && ("MaxMemory" in d <==> e.maxMemory.Some?)
            && (e.maxMemory.Some? ==> d["MaxMemory"] == Num(e.maxMemory.value))
            && ("commandstats" in d <==> e.commandstats.Some?)
  {
    var base := BaseColumns(e).items;
    assert "points" !in base && "BytesUsedForCache" !in base && "MaxMemory" !in base && "commandstats" !in base;
  }

  /** The category cells are the summary's entries. */
  lemma StatCellsContents(e: Entry)
    ensures forall k :: k in StatCells(e).items <==> e.commandstats.Some? && k in e.commandstats.value.items
    ensures forall k :: k in StatCells(e).items ==> StatCells(e).items[k] == Num(e.commandstats.value.items[k])
  {
  }

  lemma {:induction false} NodePairsAre(inst: string, nodes: Nodes, k: nat)
    requires k <= |nodes.keys|
    ensures |NodePairs(inst, nodes, k)| == k
    ensures forall j :: 0 <= j < k ==> NodePairs(inst, nodes, k)[j] == (inst, nodes.keys[j])
  {
    if k > 0 {
      NodePairsAre(inst, nodes, k - 1);
    }
  }

  lemma {:induction false} NodeRowsAre<R>(nodes: Nodes, k: nat, row: Entry -> R)
    requires nodes.Valid() && k <= |nodes.keys|
    ensures |NodeRows(nodes, k, row)| == k
    ensures forall j :: 0 <= j < k ==> nodes.keys[j] in nodes.items && NodeRows(nodes, k, row)[j] == row(nodes.items[nodes.keys[j]])
  {
    if k > 0 {
      NodeRowsAre(nodes, k - 1, row);
    }
  }

  /** Each pair of the first `k` instances names an entry of one of them. */
  lemma {:induction false} TablePairsIn(t: Table, k: nat)
    requires WellFormed(t) && k <= |t.keys|
    ensures forall j :: 0 <= j < |TablePairs(t, k)| ==>
              TablePairs(t, k)[j].0 in t.keys[..k] && Lookup(t, TablePairs(t, k)[j].0, TablePairs(t, k)[j].1).Some?
  {
    if k > 0 {
      TablePairsIn(t, k - 1);
      var inst := t.keys[k - 1];
      var nodes := t.items[inst];
      NodePairsAre(inst, nodes, |nodes.keys|);
      var pre, ps := TablePairs(t, k - 1), NodePairs(inst, nodes, |nodes.keys|);
      var all: seq<(string, string)> := pre + ps;
      assert TablePairs(t, k) == all;
      assert t.keys[..k] == t.keys[..k - 1] + [inst];
      forall j | 0 <= j < |all| ensures all[j].0 in t.keys[..k] && Lookup(t, all[j].0, all[j].1).Some? {
        if j >= |pre| {
          assert all[j] == ps[j - |pre|];
        } else {
          assert all[j] == pre[j];
        }
      }
    }
  }

  /** `row` of the first `k` instances' entries line up with their pairs. */
  lemma {:induction false} TableRowsAre<R>(t: Table, k: nat, row: Entry -> R)
    requires WellFormed(t) && k <= |t.keys|
    ensures |TablePairs(t, k)| == |TableRows(t, k, row)|
    ensures forall j :: 0 <= j < |TablePairs(t, k)| ==>
              && Lookup(t, TablePairs(t, k)[j].0, TablePairs(t, k)[j].1).Some?
              && TableRows(t, k, row)[j] == row(Lookup(t, TablePairs(t, k)[j].0, TablePairs(t, k)[j].1).value)
  {
    TablePairsIn(t, k);
    if k > 0 {
      TableRowsAre(t, k - 1, row);
      var inst := t.keys[k - 1];
      var nodes := t.items[inst];
      var m := |nodes.keys|;
      NodePairsAre(inst, nodes, m);
      NodeRowsAre(nodes, m, row);
      var pre, ps := TablePairs(t, k - 1), NodePairs(inst, nodes, m);
      var rows, ns := TableRows(t, k - 1, row), NodeRows(nodes, m, row);
      var all: seq<(string, string)>, allRows: seq<R> := pre + ps, rows + ns;
      assert TablePairs(t, k) == all;
      assert TableRows(t, k, row) == allRows;
      forall j | 0 <= j < |all|
        ensures allRows[j] == row(t.items[all[j].0].items[all[j].1])
      {
        if j >= |pre| {
          assert all[j] == ps[j - |pre|];
          assert allRows[j] == ns[j - |pre|];
        } else {
          assert all[j] == pre[j] && allRows[j] == rows[j];
        }
      }
    }
  }

  /** No (instance key, node id) pair repeats. */
  lemma {:induction false} TablePairsDistinct(t: Table, k: nat)
    requires WellFormed(t) && k <= |t.keys|
    ensures Distinct(TablePairs(t, k))
  {
    if k > 0 {
      TablePairsDistinct(t, k - 1);
      TablePairsIn(t, k - 1);
      var inst := t.keys[k - 1];
      var nodes := t.items[inst];
      var m := |nodes.keys|;
      NodePairsAre(inst, nodes, m);
      var pre, ps := TablePairs(t, k - 1), NodePairs(inst, nodes, m);
      var all: seq<(string, string)> := pre + ps;
      assert TablePairs(t, k) == all;
      assert inst !in t.keys[..k - 1];
      forall i, j | 0 <= i < j < |all| ensures all[i] != all[j] {
        if i >= |pre| {
          assert all[i] == ps[i - |pre|] && all[j] == ps[j - |pre|];
        } else if j >= |pre| {
          assert all[i] == pre[i] && all[j] == ps[j - |pre|];
        } else {
          assert all[i] == pre[i] && all[j] == pre[j];
        }
      }
    }
  }

  /** Every entry of the first `k` instances has its pair. */
  lemma {:induction false} TablePairsComplete(t: Table, k: nat)
    requires WellFormed(t) && k <= |t.keys|
    ensures forall inst, node :: inst in t.keys[..k] && Lookup(t, inst, node).Some? ==> (inst, node) in TablePairs(t, k)
  {
    if k > 0 {
      TablePairsComplete(t, k - 1);
      var inst := t.keys[k - 1];
      var nodes := t.items[inst];
      var m := |nodes.keys|;
      NodePairsAre(inst, nodes, m);
      var pre, ps := TablePairs(t, k - 1), NodePairs(inst, nodes, m);
      var all: seq<(string, string)> := pre + ps;
      assert TablePairs(t, k) == all;
      assert t.keys[..k] == t.keys[..k - 1] + [inst];
      forall inst', node | inst' in t.keys[..k] && Lookup(t, inst', node).Some?
        ensures (inst', node) in all
      {
        if inst' == inst {
          var j :| 0 <= j < m && nodes.keys[j] == node;
          assert all[|pre| + j] == (inst, node);
        } else {
          assert inst' in t.keys[..k - 1];
          var j :| 0 <= j < |pre| && pre[j] == (inst', node);
          assert all[j] == (inst', node);
        }
      }
    }
  }

  /** `_flatten_rows` returns one row per entry of the table: the rows and
      the (instance key, node id) pairs line up one for one in the table's
      iteration order, no pair repeats, and every entry has its pair. */
  lemma RowsArePairs(t: Table)
    requires WellFormed(t)
    ensures |Rows(t)| == |Pairs(t)|
    ensures Distinct(Pairs(t))
    ensures forall inst, node :: (inst, node) in Pairs(t) <==> Lookup(t, inst, node).Some?
    ensures forall j :: 0 <= j < |Rows(t)| ==>
              Lookup(t, Pairs(t)[j].0, Pairs(t)[j].1).Some? &&
              Rows(t)[j] == RowOf(Lookup(t, Pairs(t)[j].0, Pairs(t)[j].1).value)
  {
    TableRowsAre(t, |t.keys|, RowOf);
    TablePairsIn(t, |t.keys|);
    TablePairsDistinct(t, |t.keys|);
    TablePairsComplete(t, |t.keys|);
    assert t.keys[..|t.keys|] == t.keys;
    forall inst, node | (inst, node) in Pairs(t) ensures Lookup(t, inst, node).Some? {
      var j :| 0 <= j < |Pairs(t)| && Pairs(t)[j] == (inst, node);
    }
  }
}
