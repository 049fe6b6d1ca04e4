/** The label lookups of memorystore.py: picking the first non-empty label
    among candidates, the instance and node keys with their fallbacks, the
    role normalisation and the command-name label. Label values are strings;
    Python's truthiness test on `labels.get(k)` holds exactly when the label
    is present and non-empty. */
module Labels {
  import opened Dicts

  type LabelMap = map<string, string>

  const RegionLabels: seq<string> := ["region", "location"]
  const ZoneLabels: seq<string> := ["zone"]
  const NodeTypeLabels: seq<string> := ["node_type", "cluster_node_type", "tier", "service_tier", "instance_type"]
  /** Candidates for the table's instance key, before the "unknown" fallback. */
  const InstanceKeyLabels: seq<string> := ["instance_id", "cluster_id", "resource_name"]
  /** Candidates for the node id, before the "unknown" fallback. */
  const NodeKeyLabels: seq<string> := ["node_id", "shard_id"]
  /** Candidates for the entry's InstanceId column, before the "" fallback. */
  const InstanceIdLabels: seq<string> := ["instance_id", "cluster_id"]
  /** Alternative command-name labels tried when `cmd` gives nothing. */
  const CommandAltLabels: seq<string> := ["command", "command_name"]

  /** `labels.get(k)` is truthy. */
  predicate HasValue(labels: LabelMap, k: string) {
    k in labels && labels[k] != ""
  }

  /** Position `i` holds the earliest candidate with a non-empty value. */
  ghost predicate EarliestAt(labels: LabelMap, keys: seq<string>, i: int) {
    && 0 <= i < |keys|
    && HasValue(labels, keys[i])
    && forall j :: 0 <= j < i ==> !HasValue(labels, keys[j])
  }

  /** The value `_pick(labels, keys)` returns, `None` standing for Python's None. */
  function FirstNonEmpty(labels: LabelMap, keys: seq<string>): Option<string> {
    if keys == [] then None
    else if HasValue(labels, keys[0]) then Some(labels[keys[0]])
    else FirstNonEmpty(labels, keys[1..])
  }

  /** `_pick` returns the value of the earliest candidate whose value is
      non-empty, and None exactly when no candidate has a non-empty value. */
  lemma {:induction false} FirstNonEmptyIsEarliest(labels: LabelMap, keys: seq<string>)
    ensures FirstNonEmpty(labels, keys).None? <==> forall j :: 0 <= j < |keys| ==> !HasValue(labels, keys[j])
    ensures forall i :: EarliestAt(labels, keys, i) ==> FirstNonEmpty(labels, keys) == Some(labels[keys[i]])
  {
    if keys != [] && !HasValue(labels, keys[0]) {
      FirstNonEmptyIsEarliest(labels, keys[1..]);
      forall i | EarliestAt(labels, keys, i)
        ensures FirstNonEmpty(labels, keys) == Some(labels[keys[i]])
      {
        assert EarliestAt(labels, keys[1..], i - 1);
      }
      assert (forall j :: 0 <= j < |keys[1..]| ==> !HasValue(labels, keys[1..][j])) ==>
             (forall j :: 0 <= j < |keys| ==> !HasValue(labels, keys[j])) by {
        if forall j :: 0 <= j < |keys[1..]| ==> !HasValue(labels, keys[1..][j]) {
          forall j | 0 <= j < |keys| ensures !HasValue(labels, keys[j]) {
            if j > 0 { assert keys[j] == keys[1..][j - 1]; }
          }
        }
      }
    }
  }

  /** `_pick`: scan the candidates in order and return the first non-empty value. */
  method Pick(labels: LabelMap, keys: seq<string>) returns (r: Option<string>)
    ensures r == FirstNonEmpty(labels, keys)
  {
    for i := 0 to |keys|
      invariant FirstNonEmpty(labels, keys) == FirstNonEmpty(labels, keys[i..])
    {
      assert keys[i..][1..] == keys[i + 1..];
      if HasValue(labels, keys[i]) {
        return Some(labels[keys[i]]);
      }
    }
    return None;
  }

  /** The instance key: `instance_id or cluster_id or resource_name or "unknown"`. */
  function InstanceKey(rlabels: LabelMap): string {
    FirstNonEmpty(rlabels, InstanceKeyLabels).GetOr("unknown")
  }

  /** The node key: `node_id or shard_id or "unknown"`. */
  function NodeKey(rlabels: LabelMap): string {
    FirstNonEmpty(rlabels, NodeKeyLabels).GetOr("unknown")
  }

  /** The instance key is the earliest non-empty of `instance_id`,
      `cluster_id`, `resource_name`, and "unknown" when all are missing or
      empty; the node key likewise over `node_id`, `shard_id`. Neither is ever
      empty. */
  lemma KeyFallbacks(rlabels: LabelMap)
    ensures InstanceKey(rlabels) != "" && NodeKey(rlabels) != ""
    ensures HasValue(rlabels, "instance_id") ==> InstanceKey(rlabels) == rlabels["instance_id"]
    ensures !HasValue(rlabels, "instance_id") && HasValue(rlabels, "cluster_id") ==> InstanceKey(rlabels) == rlabels["cluster_id"]
    ensures !HasValue(rlabels, "instance_id") && !HasValue(rlabels, "cluster_id") && HasValue(rlabels, "resource_name") ==>
              InstanceKey(rlabels) == rlabels["resource_name"]
    ensures !HasValue(rlabels, "instance_id") && !HasValue(rlabels, "cluster_id") && !HasValue(rlabels, "resource_name") ==>
              InstanceKey(rlabels) == "unknown"
    ensures HasValue(rlabels, "node_id") ==> NodeKey(rlabels) == rlabels["node_id"]
    ensures !HasValue(rlabels, "node_id") && HasValue(rlabels, "shard_id") ==> NodeKey(rlabels) == rlabels["shard_id"]
    ensures !HasValue(rlabels, "node_id") && !HasValue(rlabels, "shard_id") ==> NodeKey(rlabels) == "unknown"
  {
    FirstNonEmptyIsEarliest(rlabels, InstanceKeyLabels);
    FirstNonEmptyIsEarliest(rlabels, NodeKeyLabels);
    FirstNonEmptyIsEarliest(rlabels, InstanceKeyLabels[1..]);
    FirstNonEmptyIsEarliest(rlabels, InstanceKeyLabels[2..]);
  }

  /** The InstanceId column: `instance_id or cluster_id or ""`. */
  function InstanceIdLabel(rlabels: LabelMap): string {
    FirstNonEmpty(rlabels, InstanceIdLabels).GetOr("")
  }

  /** The role label: `mlabels.get("role") or rlabels.get("role") or ""`. */
  function RoleLabel(mlabels: LabelMap, rlabels: LabelMap): string {
    if HasValue(mlabels, "role") then mlabels["role"]
    else if HasValue(rlabels, "role") then rlabels["role"]
    else ""
  }

  /** The NodeRole column for a non-empty role label. */
  function NormaliseRole(role: string): string {
    if role == "primary" then "Master"
    else if role == "replica" then "Replica"
    else role
  }

  /** The first candidate that is PRESENT, whatever its value (the `alt in
      mlabels` test of the alternative command labels). */
  function FirstPresent(labels: LabelMap, keys: seq<string>): (r: Option<string>)
    ensures r.Some? <==> exists j :: 0 <= j < |keys| && keys[j] in labels
    ensures r.Some? ==> exists j :: 0 <= j < |keys| && keys[j] in labels && r.value == labels[keys[j]] &&
                                    forall i :: 0 <= i < j ==> keys[i] !in labels
  {
    if keys == [] then None
    else if keys[0] in labels then Some(labels[keys[0]])
    else
      var r := FirstPresent(labels, keys[1..]);
      assert (exists j :: 0 <= j < |keys[1..]| && keys[1..][j] in labels) ==> exists j :: 0 <= j < |keys| && keys[j] in labels by {
        if exists j :: 0 <= j < |keys[1..]| && keys[1..][j] in labels {
          var j :| 0 <= j < |keys[1..]| && keys[1..][j] in labels;
          assert keys[j + 1] in labels;
        }
      }
      assert r.Some? ==> exists j :: 0 <= j < |keys| && keys[j] in labels && r.value == labels[keys[j]] &&
                                    forall i :: 0 <= i < j ==> keys[i] !in labels by {
        if r.Some? {
          var j :| 0 <= j < |keys[1..]| && keys[1..][j] in labels && r.value == labels[keys[1..][j]] &&
                   forall i :: 0 <= i < j ==> keys[1..][i] !in labels;
          forall i | 0 <= i < j + 1 ensures keys[i] !in labels {
            if i > 0 { assert keys[i] == keys[1..][i - 1]; }
          }
        }
      }
      r
  }

  /** The command name of a series, `None` when the series is skipped: `cmd`
      when non-empty, otherwise the first of `command`, `command_name` that is
      present, which skips the series when its value is empty. */
  function CommandLabel(mlabels: LabelMap): (r: Option<string>)
    ensures r.Some? ==> r.value != ""
  {
    if HasValue(mlabels, "cmd") then Some(mlabels["cmd"])
    else
      match FirstPresent(mlabels, CommandAltLabels)
      case Some(c) => if c != "" then Some(c) else None
      case None => None
  }

  /** A command name that is returned is never empty. It is taken from `cmd`
      whenever `cmd` has a value, otherwise from `command` when that has one,
      otherwise from `command_name` when `command` is absent. */
  lemma CommandLabelNonEmpty(mlabels: LabelMap)
    ensures CommandLabel(mlabels).Some? ==> CommandLabel(mlabels).value != ""
    ensures HasValue(mlabels, "cmd") ==> CommandLabel(mlabels) == Some(mlabels["cmd"])
    ensures !HasValue(mlabels, "cmd") && HasValue(mlabels, "command") ==> CommandLabel(mlabels) == Some(mlabels["command"])
    ensures !HasValue(mlabels, "cmd") && "command" !in mlabels && HasValue(mlabels, "command_name") ==>
              CommandLabel(mlabels) == Some(mlabels["command_name"])
    ensures !HasValue(mlabels, "cmd") && "command" !in mlabels && "command_name" !in mlabels ==> CommandLabel(mlabels).None?
  {
    if !HasValue(mlabels, "cmd") && "command" !in mlabels && "command_name" in mlabels {
      assert CommandAltLabels[1..] == ["command_name"];
      assert FirstPresent(mlabels, CommandAltLabels[1..]) == Some(mlabels["command_name"]);
      assert FirstPresent(mlabels, CommandAltLabels) == Some(mlabels["command_name"]);
    }
  }

  /** A present but empty `command` label stops the search: `command_name` is
      then not consulted and the series is skipped. */
  lemma EmptyCommandShadowsCommandName(mlabels: LabelMap)
    requires !HasValue(mlabels, "cmd")
    requires "command" in mlabels && mlabels["command"] == ""
    ensures CommandLabel(mlabels).None?
  {
  }
}
