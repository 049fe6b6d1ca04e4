/** What `_ensure_node_entry` and `_accumulate_commands` guarantee about the
    node table. */
module AccumulateProperties {
  import opened Dicts
  import opened Labels
  import opened Tables

  // ---------------------------------------------------------------- _ensure_node_entry

  /** An entry that exists is returned as it is and the table is left unchanged. */
  lemma EnsureExisting(t: Table, inst: string, node: string)
    requires WellFormed(t) && Lookup(t, inst, node).Some?
    ensures Ensure(t, inst, node) == t
  {
  }

  /** Ensuring twice is ensuring once. */
  lemma EnsureIdempotent(t: Table, inst: string, node: string)
    requires WellFormed(t)
    ensures Ensure(Ensure(t, inst, node), inst, node) == Ensure(t, inst, node)
  {
    EnsureExisting(Ensure(t, inst, node), inst, node);
  }

  /** A missing entry is created with its identity, source "MS", empty
      `points` and empty columns; nothing else in the table changes, and a
      new instance key goes to the end of the instance order. */
  lemma EnsureCreates(t: Table, inst: string, node: string)
    requires WellFormed(t) && Lookup(t, inst, node).None?
    ensures var r := Ensure(t, inst, node);
            && Lookup(r, inst, node).Some?
            && var e := Lookup(r, inst, node).value;
            && e.source == "MS" && e.clusterId == inst && e.nodeId == node
            && e.points == Some(EmptyDict()) && e.points.value.keys == []
            && e.nodeRole == "" && e.nodeType == "" && e.region == "" && e.zone == ""
            && e.projectId == "" && e.instanceId == "" && e.instanceType == ""
            && e.bytesUsedForCache.None? && e.maxMemory.None? && e.commandstats.None?
            && (forall i, n :: (i != inst || n != node) ==> Lookup(r, i, n) == Lookup(t, i, n))
            && r.keys == if inst in t.items then t.keys else t.keys + [inst]
  {
  }

  // ---------------------------------------------------------------- one command series

  /** The entry a series addresses, before the series is applied. */
  function Prior<V>(t: Table, s: Series<V>): Entry {
    var inst := InstanceKey(s.resource);
    var node := NodeKey(s.resource);
    Lookup(t, inst, node).GetOr(NewEntry(inst, node))
  }

  /** The series' resource labels give the entry (inst, node). */
  predicate Addresses<V>(s: Series<V>, inst: string, node: string) {
    InstanceKey(s.resource) == inst && NodeKey(s.resource) == node
  }

  /** One iteration writes `AccEntry` of the addressed entry (a fresh one when
      it was missing) and leaves every other entry as it was. */
  lemma AccOneLookup(t: Table, s: Series<real>, product: string, project: string, inst: string, node: string)
    requires WellFormed(t) && Open(t)
    ensures Prior(t, s).points.Some? && PointsValid(Prior(t, s).points.value)
    ensures Lookup(AccOne(t, s, product, project), inst, node) ==
              if Addresses(s, inst, node) then Some(AccEntry(Prior(t, s), s, product, project)) else Lookup(t, inst, node)
  {
    var i, n := InstanceKey(s.resource), NodeKey(s.resource);
    var t1 := Ensure(t, i, n);
    assert Lookup(t1, i, n) == Some(Prior(t, s));
  }

  /** Project, instance type and InstanceId are overwritten; Region, Zone and
      NodeType take the earliest non-empty candidate label and keep their
      previous value when there is none; the entry's identity, memory,
      capacity and category columns are untouched. */
  lemma AccEntryIdentity(e: Entry, s: Series<real>, product: string, project: string)
    requires e.points.Some? && PointsValid(e.points.value)
    ensures var a := AccEntry(e, s, product, project);
            && a.source == e.source && a.clusterId == e.clusterId && a.nodeId == e.nodeId
            && a.projectId == project && a.instanceType == product
            && a.instanceId == FirstNonEmpty(s.resource, InstanceIdLabels).GetOr("")
            && a.bytesUsedForCache == e.bytesUsedForCache && a.maxMemory == e.maxMemory
            && a.commandstats == e.commandstats
    ensures var a := AccEntry(e, s, product, project);
            && ((forall j :: 0 <= j < |RegionLabels| ==> !HasValue(s.resource, RegionLabels[j])) ==> a.region == e.region)
            && (forall i :: EarliestAt(s.resource, RegionLabels, i) ==> a.region == s.resource[RegionLabels[i]])
            && ((forall j :: 0 <= j < |ZoneLabels| ==> !HasValue(s.resource, ZoneLabels[j])) ==> a.zone == e.zone)
            && (forall i :: EarliestAt(s.resource, ZoneLabels, i) ==> a.zone == s.resource[ZoneLabels[i]])
            && ((forall j :: 0 <= j < |NodeTypeLabels| ==> !HasValue(s.resource, NodeTypeLabels[j])) ==> a.nodeType == e.nodeType)
            && (forall i :: EarliestAt(s.resource, NodeTypeLabels, i) ==> a.nodeType == s.resource[NodeTypeLabels[i]])
  {
    FirstNonEmptyIsEarliest(s.resource, RegionLabels);
    FirstNonEmptyIsEarliest(s.resource, ZoneLabels);
    FirstNonEmptyIsEarliest(s.resource, NodeTypeLabels);
  }

  /** NodeRole: a `primary` role label becomes "Master", `replica` becomes
      "Replica", any other non-empty label is stored verbatim, and without a
      role label (metric label first, then resource label) the previous value
      stays. */
  lemma AccEntryRole(e: Entry, s: Series<real>, product: string, project: string)
    requires e.points.Some? && PointsValid(e.points.value)
    ensures var role, a := RoleLabel(s.metric, s.resource), AccEntry(e, s, product, project);
            && (role == "primary" ==> a.nodeRole == "Master")
            && (role == "replica" ==> a.nodeRole == "Replica")
            && (role != "" && role != "primary" && role != "replica" ==> a.nodeRole == role)
            && (role == "" ==> a.nodeRole == e.nodeRole)
    ensures HasValue(s.metric, "role") ==> RoleLabel(s.metric, s.resource) == s.metric["role"]
    ensures !HasValue(s.metric, "role") && HasValue(s.resource, "role") ==> RoleLabel(s.metric, s.resource) == s.resource["role"]
  {
  }

  /** A series without a usable command label records no sample. */
  lemma AccEntryNoCommand(e: Entry, s: Series<real>, product: string, project: string)
    requires e.points.Some? && PointsValid(e.points.value)
    requires CommandLabel(s.metric).None?
    ensures AccEntry(e, s, product, project).points == e.points
  {
  }

  // ---------------------------------------------------------------- samples

  /** The value of the last sample of `ss` taken at time `t`. */
  function LastValueAt(ss: seq<Sample<real>>, t: real): Option<real>
    decreases |ss|
  {
    if ss == [] then None
    else if ss[|ss| - 1].t == t then Some(ss[|ss| - 1].v)
    else LastValueAt(ss[..|ss| - 1], t)
  }

  /** `points[t][c]`, `None` when either key is missing. */
  function PointAt(p: Points, t: real, c: string): Option<real> {
    if t in p.items && c in p.items[t].items then Some(p.items[t].items[c]) else None
  }

  /** After a series' samples are stored under `cmd`, `points[t][cmd]` holds
      the last sample taken at `t` when there is one; every other
      (timestamp, command) cell is unchanged. */
  lemma AddSamplePoint(p: Points, cmd: string, s: Sample<real>, t: real, c: string)
    requires PointsValid(p)
    ensures PointAt(AddSample(p, cmd, s), t, c) == if c == cmd && s.t == t then Some(s.v) else PointAt(p, t, c)
  {
  }

  lemma {:induction false} AddSamplesLastWins(p: Points, cmd: string, ss: seq<Sample<real>>, t: real, c: string)
    requires PointsValid(p)
    ensures PointAt(AddSamples(p, cmd, ss), t, c) ==
              if c == cmd && LastValueAt(ss, t).Some? then LastValueAt(ss, t) else PointAt(p, t, c)
    decreases |ss|
  {
    if ss != [] {
      AddSamplesLastWins(p, cmd, ss[..|ss| - 1], t, c);
      AddSamplePoint(AddSamples(p, cmd, ss[..|ss| - 1]), cmd, ss[|ss| - 1], t, c);
    }
  }

  // ---------------------------------------------------------------- all command series

  /** `table[inst][node]["points"][t][c]`, `None` when anything is missing. */
  function EntryPoint(tbl: Table, inst: string, node: string, t: real, c: string): Option<real> {
    match Lookup(tbl, inst, node)
    case Some(e) => if e.points.Some? then PointAt(e.points.value, t, c) else None
    case None => None
  }

  /** The series writes command `c` of entry (inst, node). */
  predicate Feeds(s: Series<real>, inst: string, node: string, c: string) {
    Addresses(s, inst, node) && CommandLabel(s.metric) == Some(c)
  }

  /** The last value written to `points[t][c]` of (inst, node) by `rs`. */
  function LastWrite(rs: seq<Series<real>>, inst: string, node: string, c: string, t: real): Option<real>
    decreases |rs|
  {
    if rs == [] then None
    else
      var s := rs[|rs| - 1];
      if Feeds(s, inst, node, c) && LastValueAt(s.points, t).Some? then LastValueAt(s.points, t)
      else LastWrite(rs[..|rs| - 1], inst, node, c, t)
  }

  lemma AccOnePoint(tbl: Table, s: Series<real>, product: string, project: string, inst: string, node: string, t: real, c: string)
    requires WellFormed(tbl) && Open(tbl)
    ensures EntryPoint(AccOne(tbl, s, product, project), inst, node, t, c) ==
              if Feeds(s, inst, node, c) && LastValueAt(s.points, t).Some? then LastValueAt(s.points, t)
              else EntryPoint(tbl, inst, node, t, c)
  {
    AccOneLookup(tbl, s, product, project, inst, node);
    if Addresses(s, inst, node) {
      var prior := Prior(tbl, s);
      assert EntryPoint(tbl, inst, node, t, c) == PointAt(prior.points.value, t, c);
      match CommandLabel(s.metric)
      case Some(cmd) =>
        AddSamplesLastWins(prior.points.value, cmd, s.points, t, c);
      case None =>
    }
  }

  /** After `_accumulate_commands`, `points[t][c]` of every entry holds the
      value of the last sample taken at `t` by the last series that feeds
      command `c` of that entry; a cell that no series writes keeps its
      previous value. */
  lemma {:induction false} AccumulateLastWins(tbl: Table, rs: seq<Series<real>>, product: string, project: string,
                                              inst: string, node: string, t: real, c: string)
    requires WellFormed(tbl) && Open(tbl)
    ensures EntryPoint(AccAll(tbl, rs, product, project), inst, node, t, c) ==
              if LastWrite(rs, inst, node, c, t).Some? then LastWrite(rs, inst, node, c, t)
              else EntryPoint(tbl, inst, node, t, c)
    decreases |rs|
  {
    if rs != [] {
      var pre := rs[..|rs| - 1];
      AccumulateLastWins(tbl, pre, product, project, inst, node, t, c);
      AccOnePoint(AccAll(tbl, pre, product, project), rs[|rs| - 1], product, project, inst, node, t, c);
    }
  }

  /** Some series of `rs` addresses (inst, node). */
  predicate AddressedBy<V>(rs: seq<Series<V>>, inst: string, node: string)
    decreases |rs|
  {
    rs != [] && (AddressedBy(rs[..|rs| - 1], inst, node) || Addresses(rs[|rs| - 1], inst, node))
  }

  lemma {:induction false} AddressedByIsSome<V>(rs: seq<Series<V>>, inst: string, node: string)
    ensures AddressedBy(rs, inst, node) <==> exists k :: 0 <= k < |rs| && Addresses(rs[k], inst, node)
    decreases |rs|
  {
    if rs != [] {
      var n := |rs| - 1;
      AddressedByIsSome(rs[..n], inst, node);
      if exists k :: 0 <= k < |rs| && Addresses(rs[k], inst, node) {
        var k :| 0 <= k < |rs| && Addresses(rs[k], inst, node);
        if k < n { assert Addresses(rs[..n][k], inst, node); }
      }
      if AddressedBy(rs[..n], inst, node) {
        var k :| 0 <= k < n && Addresses(rs[..n][k], inst, node);
        assert Addresses(rs[k], inst, node);
      }
    }
  }

  /** After `_accumulate_commands` an entry exists exactly when it existed
      before or some series addresses it. */
  lemma {:induction false} AccumulateCovers(tbl: Table, rs: seq<Series<real>>, product: string, project: string,
                                            inst: string, node: string)
    requires WellFormed(tbl) && Open(tbl)
    ensures Lookup(AccAll(tbl, rs, product, project), inst, node).Some? <==>
              Lookup(tbl, inst, node).Some? || exists k :: 0 <= k < |rs| && Addresses(rs[k], inst, node)
  {
    AccumulateCoversBy(tbl, rs, product, project, inst, node);
    AddressedByIsSome(rs, inst, node);
  }

  lemma {:induction false} AccumulateCoversBy(tbl: Table, rs: seq<Series<real>>, product: string, project: string,
                                              inst: string, node: string)
    requires WellFormed(tbl) && Open(tbl)
    ensures Lookup(AccAll(tbl, rs, product, project), inst, node).Some? <==>
              Lookup(tbl, inst, node).Some? || AddressedBy(rs, inst, node)
    decreases |rs|
  {
    if rs != [] {
      var n := |rs| - 1;
      AccumulateCoversBy(tbl, rs[..n], product, project, inst, node);
      AccOneLookup(AccAll(tbl, rs[..n], product, project), rs[n], product, project, inst, node);
    }
  }
}
