/** What `_attach_memory_usage` and `_attach_capacity_scalar` guarantee:
    BytesUsedForCache is the largest sample seen for the node, MaxMemory the
    largest sample seen for the node's instance. */
module MemoryProperties {
  import opened Dicts
  import opened Labels
  import opened Tables
  import opened AccumulateProperties

  // ---------------------------------------------------------------- a series' maximum

  /** The running maximum of a series is at least 0 and at least every
      sample, and it is 0 or one of the samples. */
  lemma {:induction false} SeriesMaxIsMax(ss: seq<Sample<int>>)
    ensures SeriesMax(ss) >= 0
    ensures forall j :: 0 <= j < |ss| ==> ss[j].v <= SeriesMax(ss)
    ensures SeriesMax(ss) == 0 || exists j :: 0 <= j < |ss| && ss[j].v == SeriesMax(ss)
    decreases |ss|
  {
    if ss != [] {
      var n := |ss| - 1;
      SeriesMaxIsMax(ss[..n]);
      assert forall j :: 0 <= j < n ==> ss[j] == ss[..n][j];
    }
  }

  // ---------------------------------------------------------------- the maximum over several series

  /** The entries a maximum is taken for: one node, or every node of an instance. */
  datatype Scope = OneNode(inst: string, node: string) | WholeInstance(inst: string)

  predicate InScope<V>(s: Series<V>, sc: Scope) {
    match sc
    case OneNode(inst, node) => Addresses(s, inst, node)
    case WholeInstance(inst) => InstanceKey(s.resource) == inst
  }

  /** Some series of `rs` falls in the scope. */
  predicate Touched(rs: seq<Series<int>>, sc: Scope)
    decreases |rs|
  {
    rs != [] && (Touched(rs[..|rs| - 1], sc) || InScope(rs[|rs| - 1], sc))
  }

  /** The largest sample among the series of `rs` in the scope, 0 when there
      is none. */
  function Peak(rs: seq<Series<int>>, sc: Scope): int
    decreases |rs|
  {
    if rs == [] then 0
    else
      var m := Peak(rs[..|rs| - 1], sc);
      if InScope(rs[|rs| - 1], sc) then Max(m, SeriesMax(rs[|rs| - 1].points)) else m
  }

  lemma {:induction false} TouchedIsSome(rs: seq<Series<int>>, sc: Scope)
    ensures Touched(rs, sc) <==> exists k :: 0 <= k < |rs| && InScope(rs[k], sc)
    decreases |rs|
  {
    if rs != [] {
      var n := |rs| - 1;
      TouchedIsSome(rs[..n], sc);
      if exists k :: 0 <= k < |rs| && InScope(rs[k], sc) {
        var k :| 0 <= k < |rs| && InScope(rs[k], sc);
        if k < n { assert InScope(rs[..n][k], sc); }
      }
      if Touched(rs[..n], sc) {
        var k :| 0 <= k < n && InScope(rs[..n][k], sc);
        assert InScope(rs[k], sc);
      }
    }
  }

  /** The peak is at least 0 and at least every sample of every series in
      the scope; it is 0 or one of those samples; and it is 0 when no series
      falls in the scope. */
  lemma {:induction false} PeakIsMax(rs: seq<Series<int>>, sc: Scope)
    ensures Peak(rs, sc) >= 0
    ensures !Touched(rs, sc) ==> Peak(rs, sc) == 0
    ensures forall k, j :: 0 <= k < |rs| && InScope(rs[k], sc) && 0 <= j < |rs[k].points| ==> rs[k].points[j].v <= Peak(rs, sc)
    ensures Peak(rs, sc) == 0 ||
            exists k, j :: 0 <= k < |rs| && InScope(rs[k], sc) && 0 <= j < |rs[k].points| && rs[k].points[j].v == Peak(rs, sc)
    decreases |rs|
  {
    if rs != [] {
      var n := |rs| - 1;
      var pre := rs[..n];
      PeakIsMax(pre, sc);
      SeriesMaxIsMax(rs[n].points);
      assert forall k :: 0 <= k < n ==> rs[k] == pre[k];
      var p := Peak(rs, sc);
      if p != 0 && p != Peak(pre, sc) {
        var j :| 0 <= j < |rs[n].points| && rs[n].points[j].v == SeriesMax(rs[n].points);
        assert InScope(rs[n], sc) && rs[n].points[j].v == p;
      } else if p != 0 {
        var k, j :| 0 <= k < n && InScope(pre[k], sc) && 0 <= j < |pre[k].points| && pre[k].points[j].v == p;
        assert rs[k] == pre[k];
      }
    }
  }

  // ---------------------------------------------------------------- _attach_memory_usage

  /** One iteration writes `MemEntry` of the addressed entry (a fresh one
      when it was missing) and leaves every other entry as it was. */
  lemma MemOneLookup(t: Table, s: Series<int>, inst: string, node: string)
    requires WellFormed(t)
    ensures Lookup(MemOne(t, s), inst, node) ==
              if Addresses(s, inst, node) then Some(MemEntry(Prior(t, s), s)) else Lookup(t, inst, node)
  {
    var i, n := InstanceKey(s.resource), NodeKey(s.resource);
    assert Lookup(Ensure(t, i, n), i, n) == Some(Prior(t, s));
  }

  /** After `_attach_memory_usage` an entry addressed by some series exists
      (created when missing) and its BytesUsedForCache is the larger of its
      previous value (0 when absent) and the node's peak; every other entry
      is unchanged. */
  lemma {:induction false} MemAllLookup(t: Table, rs: seq<Series<int>>, inst: string, node: string)
    requires WellFormed(t)
    ensures var prior := Lookup(t, inst, node).GetOr(NewEntry(inst, node));
            Lookup(MemAll(t, rs), inst, node) ==
              if Touched(rs, OneNode(inst, node))
              then Some(prior.(bytesUsedForCache := Some(Max(prior.bytesUsedForCache.GetOr(0), Peak(rs, OneNode(inst, node))))))
              else Lookup(t, inst, node)
    decreases |rs|
  {
    if rs != [] {
      var n := |rs| - 1;
      var sc := OneNode(inst, node);
      MemAllLookup(t, rs[..n], inst, node);
      MemOneLookup(MemAll(t, rs[..n]), rs[n], inst, node);
      PeakIsMax(rs[..n], sc);
      SeriesMaxIsMax(rs[n].points);
    }
  }

  /** One series leaves BytesUsedForCache at the largest of its previous
      value (0 when absent), 0 and every sample of the series, and at one of
      those values. */
  lemma MemEntryIsMax(e: Entry, s: Series<int>)
    ensures MemEntry(e, s).bytesUsedForCache.Some?
    ensures var v := MemEntry(e, s).bytesUsedForCache.value;
            && v >= e.bytesUsedForCache.GetOr(0) && v >= 0
            && (forall j :: 0 <= j < |s.points| ==> s.points[j].v <= v)
            && (v == e.bytesUsedForCache.GetOr(0) || v == 0 || exists j :: 0 <= j < |s.points| && s.points[j].v == v)
    ensures MemEntry(e, s).(bytesUsedForCache := e.bytesUsedForCache) == e
  {
    SeriesMaxIsMax(s.points);
  }

  /** The memory pass never lowers a node's BytesUsedForCache (0 when absent)
      and never removes an entry. */
  lemma MemAllNeverDecreases(t: Table, rs: seq<Series<int>>, inst: string, node: string)
    requires WellFormed(t)
    requires Lookup(t, inst, node).Some?
    ensures Lookup(MemAll(t, rs), inst, node).Some?
    ensures Lookup(MemAll(t, rs), inst, node).value.bytesUsedForCache.GetOr(0) >=
            Lookup(t, inst, node).value.bytesUsedForCache.GetOr(0)
  {
    MemAllLookup(t, rs, inst, node);
  }

  /** Running the memory pass twice over the same series leaves every entry
      as running it once: the stored value is already the maximum. */
  lemma MemAllTwice(t: Table, rs: seq<Series<int>>, inst: string, node: string)
    requires WellFormed(t)
    ensures Lookup(MemAll(MemAll(t, rs), rs), inst, node) == Lookup(MemAll(t, rs), inst, node)
  {
    MemAllLookup(t, rs, inst, node);
    MemAllLookup(MemAll(t, rs), rs, inst, node);
  }

  // ---------------------------------------------------------------- _attach_capacity_scalar

  /** `cap_by_inst` holds exactly the instance keys of the series, each with
      the instance's peak. */
  lemma {:induction false} CapByInstIsPeak(rs: seq<Series<int>>, inst: string)
    ensures inst in CapByInst(rs) <==> Touched(rs, WholeInstance(inst))
    ensures inst in CapByInst(rs) ==> CapByInst(rs)[inst] == Peak(rs, WholeInstance(inst))
    decreases |rs|
  {
    if rs != [] {
      var n := |rs| - 1;
      CapByInstIsPeak(rs[..n], inst);
      PeakIsMax(rs[..n], WholeInstance(inst));
      SeriesMaxIsMax(rs[n].points);
    }
  }

  /** Every node of an instance in `cap` gets the instance's value as
      MaxMemory; instances not in `cap` keep their entries; no entry is added
      or removed and no key moves. */
  lemma ApplyCapsLookup(t: Table, cap: map<string, int>, inst: string, node: string)
    requires WellFormed(t)
    ensures Lookup(ApplyCaps(t, cap), inst, node) ==
              match Lookup(t, inst, node)
              case None => None
              case Some(e) => Some(if inst in cap then e.(maxMemory := Some(cap[inst])) else e)
    ensures ApplyCaps(t, cap).keys == t.keys
    ensures inst in t.items ==> ApplyCaps(t, cap).items[inst].keys == t.items[inst].keys
  {
  }

  /** After `_attach_capacity_scalar` each node of an instance that some
      series names has MaxMemory equal to the instance's peak, and every
      other entry is unchanged. */
  lemma CapacityLookup(t: Table, rs: seq<Series<int>>, inst: string, node: string)
    requires WellFormed(t)
    ensures Lookup(ApplyCaps(t, CapByInst(rs)), inst, node) ==
              match Lookup(t, inst, node)
              case None => None
              case Some(e) =>
                Some(if Touched(rs, WholeInstance(inst)) then e.(maxMemory := Some(Peak(rs, WholeInstance(inst)))) else e)
  {
    ApplyCapsLookup(t, CapByInst(rs), inst, node);
    CapByInstIsPeak(rs, inst);
  }
}
