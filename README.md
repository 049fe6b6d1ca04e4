# Memorystore node-table assembly

This project models the core of `memorystore.py`, the exporter that turns Cloud
Monitoring time series for Memorystore (Redis, Valkey, Redis Cluster) into one
CSV row per node. The core is the node table,
`table[instance key][node id] -> entry`. The model covers these steps:

- the label lookups that address a series to an entry: `_pick`, the
  instance-key and node-key fallbacks, role normalisation and the command-name
  label;
- `_ensure_node_entry`;
- `_accumulate_commands`, which records command rates per timestamp;
- `_attach_memory_usage` and `_attach_capacity_scalar`, which record running
  maxima of gauge series;
- `_apply_processed_categories`, which turns `points` into a `commandstats`
  summary;
- `_flatten_rows`;
- the header loop of `main`.

How it is laid out:

- `dicts.dfy` models an insertion-ordered Python dict as `Dict(keys, items)`.
  `Put`, `Remove` and `Update` behave as `d[k] = v`, `d.pop(k, None)` and
  `d.update(other)`, and they keep the key order Python keeps.
- `labels.dfy` holds the label lookups. `Pick` is the loop of `_pick`, proved
  equal to the function `FirstNonEmpty`.
- `tables.dfy` gives the entry as a record. The ten always-present columns are
  strings. `points`, `BytesUsedForCache`, `MaxMemory` and `commandstats` are
  `Option`s, because an entry may or may not hold those keys. The file also
  defines one function per pass that gives the table the pass leaves behind.
- `node_table.dfy` holds the class `NodeTable`. Its methods mutate the table
  field with the same loops as the source, and each method is proved to leave
  exactly the table its function gives.
- `accumulate_properties.dfy`, `memory_properties.dfy` and
  `report_properties.dfy` state what each pass guarantees. Each one is stated
  through `Lookup(table, inst, node)`: what the addressed entry becomes, and
  that every other entry is left unchanged.
- `header.dfy` models the header loop of `main`.

The category classifier (`processMetricPoint`) and the window reducer
(`processNodeStats`) belong to `msstats.py`. Here they are function parameters
of type `Classifier` and `Reducer`.

## Model

| member | source | states |
|---|---|---|
| Labels.FirstNonEmptyIsEarliest | memorystore.py:76-81 | `_pick` returns the value of the earliest candidate label that is present and non-empty; it returns None exactly when no candidate has a non-empty value |
| Labels.Pick | memorystore.py:76-81 | the scanning loop returns what `FirstNonEmpty` specifies |
| Labels.KeyFallbacks | memorystore.py:156-162 | the instance key is `instance_id`, else `cluster_id`, else `resource_name`, else "unknown"; the node key is `node_id`, else `shard_id`, else "unknown"; empty labels are skipped; neither key is ever empty |
| Labels.FirstPresent | memorystore.py:190-193 | the alternative command-label search finds a label exactly when one of `command`, `command_name` is present, and what it finds is the value of the first candidate present, whatever that value is |
| Labels.CommandLabel | memorystore.py:187-195 | the command name a series is recorded under is never empty; `None` means the series is skipped |
| Labels.CommandLabelNonEmpty | memorystore.py:187-195 | a command name that is used is never empty; a non-empty `cmd` always wins; otherwise a non-empty `command` is used; otherwise, when `command` is absent, a non-empty `command_name` is used; with no `cmd` value and no alternative label the series is skipped |
| Labels.EmptyCommandShadowsCommandName | memorystore.py:190-195 | a present but empty `command` label ends the search, so `command_name` is not consulted and the series is skipped |
| NodeTables.NodeTable.constructor | memorystore.py:316 | the table starts empty |
| NodeTables.NodeTable.EnsureNodeEntry | memorystore.py:125-144 | the table becomes `Ensure(old table)`; the returned entry is the one stored at `[inst][node]` |
| AccumulateProperties.EnsureExisting | memorystore.py:128-144 | an existing entry is returned as stored, and the table is unchanged |
| AccumulateProperties.EnsureIdempotent | memorystore.py:125-144 | ensuring an entry twice leaves the same table as ensuring it once |
| AccumulateProperties.EnsureCreates | memorystore.py:128-143 | a missing entry is created with source "MS", its ClusterId and NodeId, empty string columns and empty `points`; a new instance key is appended to the instance order; every other entry is unchanged |
| NodeTables.NodeTable.AltCommand | memorystore.py:190-193 | the loop over `command`, `command_name` returns the value of the first one present, or "" when neither is |
| NodeTables.NodeTable.AccumulateCommands | memorystore.py:147-211 | the table becomes `AccAll(old table, series)`; every entry stays well formed and keeps its `points` |
| NodeTables.NodeTable.AccumulateSeries | memorystore.py:151-211 | one iteration of the series loop leaves `AccOne(old table, series)` |
| NodeTables.NodeTable.FillIdentity | memorystore.py:165-184 | the identity columns written for one series are those of `Identify` |
| NodeTables.NodeTable.AddPoints | memorystore.py:198-211 | the sample loop leaves `AddSamples`: `points[t][cmd] = value`, creating `points[t]` when it is missing |
| Tables.AccAll | memorystore.py:151-211 | accumulating keeps every entry's identity (source "MS", its ClusterId and NodeId) and its `points` |
| Tables.StoreSample | memorystore.py:198-211 | storing one sample is creating `points[t]` when it is missing, then writing `[t][cmd]` |
| AccumulateProperties.AccOneLookup | memorystore.py:151-211 | one series rewrites only the entry it addresses (created when missing) and leaves every other entry unchanged |
| AccumulateProperties.AccEntryIdentity | memorystore.py:165-184 | Project ID, InstanceType and InstanceId are overwritten; Region, Zone and NodeType take the earliest non-empty candidate label, else they keep their previous value; ClusterId, NodeId, memory, capacity and summary columns are untouched |
| AccumulateProperties.AccEntryRole | memorystore.py:174-181 | the role label comes from the metric labels first, then the resource labels; `primary` becomes "Master", `replica` becomes "Replica", any other non-empty value is stored verbatim, and with no role label the previous NodeRole stays |
| AccumulateProperties.AccEntryNoCommand | memorystore.py:186-195 | a series without a usable command label records no sample, though its identity columns are still written |
| AccumulateProperties.AddSamplePoint | memorystore.py:198-211 | one sample changes only cell `[t][cmd]`, which becomes its value |
| AccumulateProperties.AddSamplesLastWins | memorystore.py:198-211 | after a series' samples, `points[t][cmd]` holds the last sample at `t` when there is one; every other cell is unchanged |
| AccumulateProperties.AccOnePoint | memorystore.py:186-211 | one series changes the cell `[t][c]` of an entry only when it addresses that entry, names command `c` and has a sample at `t` |
| AccumulateProperties.AccumulateLastWins | memorystore.py:151-211 | after the pass, each cell `points[t][c]` holds the last sample at `t` from the last series that feeds `c` of that entry; a cell no series writes keeps its value |
| AccumulateProperties.AccumulateCovers | memorystore.py:151-163 | after the pass an entry exists exactly when it existed before or some series addresses it |
| NodeTables.NodeTable.PeakOf | memorystore.py:245-255 | the running-maximum loop returns `SeriesMax`, which starts from 0 |
| MemoryProperties.SeriesMaxIsMax | memorystore.py:245-255 | the running maximum is at least 0 and at least every sample, and it is 0 or one of the samples |
| NodeTables.NodeTable.AttachMemoryUsage | memorystore.py:231-257 | the table becomes `MemAll(old table, series)` |
| Tables.MemAll | memorystore.py:231-257 | the memory pass keeps every entry well formed |
| MemoryProperties.MemOneLookup | memorystore.py:232-257 | one series rewrites only the entry it addresses (created when missing) |
| MemoryProperties.MemEntryIsMax | memorystore.py:254-257 | BytesUsedForCache becomes at least its previous value (0 when absent), at least 0 and at least every sample; it is one of those; no other column changes |
| MemoryProperties.MemAllLookup | memorystore.py:231-257 | an entry addressed by some series exists afterwards, with BytesUsedForCache equal to the larger of its previous value (0 when absent) and the node's peak over all its series; every other entry is unchanged |
| MemoryProperties.PeakIsMax | memorystore.py:245-257 | the peak over the series in scope is at least 0 and at least each of their samples; it is 0 or one of those samples, and it is 0 when no series is in scope |
| MemoryProperties.MemAllNeverDecreases | memorystore.py:256-257 | the memory pass never lowers a node's BytesUsedForCache and never removes an entry |
| MemoryProperties.MemAllTwice | memorystore.py:333-351 | running the memory pass a second time over the same series changes nothing, which is the double pass on an empty table |
| NodeTables.NodeTable.CapacityByInstance | memorystore.py:262-283 | the first loop of `_attach_capacity_scalar` builds `CapByInst` |
| MemoryProperties.CapByInstIsPeak | memorystore.py:262-283 | `cap_by_inst` holds exactly the instance keys some series names, each mapped to the instance's peak (at least 0) |
| NodeTables.NodeTable.AttachCapacityScalar | memorystore.py:260-288 | the table becomes `ApplyCaps(old table, CapByInst(series))` |
| NodeTables.NodeTable.CapAll | memorystore.py:287-288 | every node of the instance gets MaxMemory equal to the value |
| MemoryProperties.ApplyCapsLookup | memorystore.py:285-288 | every node of an instance in the map gets that instance's value as MaxMemory; other instances are unchanged; no entry is added or removed and no key moves |
| MemoryProperties.CapacityLookup | memorystore.py:260-288 | after the pass each node of an instance that some series names has MaxMemory equal to the instance's peak, and every other entry is unchanged |
| NodeTables.NodeTable.ApplyProcessedCategories | memorystore.py:214-228 | the table becomes `ApplyAll(old table, classify, reduce)` |
| NodeTables.NodeTable.FinaliseAll | memorystore.py:221-228 | the loop over one instance's nodes finalises each entry |
| NodeTables.NodeTable.Process | memorystore.py:224-225 | `processed` holds `classify(cmdmap)` for each timestamp, in timestamp-insertion order |
| Tables.ApplyAll | memorystore.py:220-228 | the summary pass keeps every entry well formed |
| ReportProperties.ApplyAllLookup | memorystore.py:220-228 | every entry, and no other, is replaced by its finalised form; no key moves |
| ReportProperties.FinaliseMeaning | memorystore.py:222-228 | a finalised entry has no `points`; `commandstats` is `{}` when there were no samples, and otherwise the reducer's result on the classified timestamps, in their order; all other columns are kept |
| ReportProperties.ApplyAllCloses | memorystore.py:220-228 | after the pass no entry holds `points` and every entry holds `commandstats` |
| NodeTables.NodeTable.FlattenRows | memorystore.py:291-301 | the table becomes the stamped table; the rows are `Rows` of it, instance by instance and node by node |
| NodeTables.NodeTable.StampRows | memorystore.py:294-300 | the loop over one instance's nodes stamps each entry and emits its row |
| ReportProperties.StampAllLookup | memorystore.py:293-296 | stamping sets Project ID and InstanceType only when the given value is non-empty; it visits every entry and adds none |
| Dicts.Dict.Update | memorystore.py:298 | `row.update(stats)` gives the row's mapping overridden by the stats' mapping |
| Dicts.Dict.Remove | memorystore.py:299 | `row.pop("commandstats", None)` removes exactly that key |
| ReportProperties.NewEntryDict | memorystore.py:131-143 | a new entry's dict has the ten columns in creation order, then "points"; Source is "MS", ClusterId the instance key, NodeId the node id, the other seven columns are "", and "points" is an empty dict |
| ReportProperties.AsDictBase | memorystore.py:297 | the copied entry holds the ten columns with the entry's values |
| ReportProperties.AsDictOptional | memorystore.py:297 | beyond those ten, the copy holds `points`, BytesUsedForCache, MaxMemory and `commandstats` exactly when the entry holds them, with their values |
| ReportProperties.StatCellsContents | memorystore.py:298 | the category cells are exactly the summary's keys and values |
| ReportProperties.RowOfContents | memorystore.py:297-299 | a row has no "commandstats" column; each other column takes its value from the summary when the summary names it, and from the entry otherwise |
| ReportProperties.TablePairsDistinct | memorystore.py:293-294 | no (instance key, node id) pair is visited twice |
| ReportProperties.TablePairsComplete | memorystore.py:293-294 | every entry of the visited instances is visited |
| ReportProperties.TableRowsAre | memorystore.py:293-300 | the j-th row is the row of the j-th visited entry |
| ReportProperties.RowsArePairs | memorystore.py:291-301 | there is one row per entry, in table iteration order; no entry repeats, and a pair is visited exactly when its entry exists |
| Header.BuildHeader | memorystore.py:415-434 | the nested header loops produce `HeaderOf(rows)` |
| Header.BaseOrderDistinct | memorystore.py:415-428 | the twelve base columns are distinct |
| Header.FirstSeenMembers | memorystore.py:429-433 | the collected keys are exactly the row keys outside the base columns, each collected once |
| Header.FirstSeenOrdered | memorystore.py:429-433 | the collected keys keep the order of their first occurrence |
| Header.AllKeysMembers | memorystore.py:430-431 | a key is scanned exactly when some row has it |
| Header.HeaderShape | memorystore.py:415-434 | the header starts with the twelve base columns in their order and repeats no column; a column is in it exactly when it is a base column or a key of some row; with no rows it is the base columns alone |
| Header.HeaderCategoryOrder | memorystore.py:429-434 | after the base columns, the keys follow the order in which the rows first show them |

`_apply_processed_categories`' docstring speaks of "each node entry that has
points". The code processes every entry, and an entry without samples gets
`commandstats == {}`. The model follows the code.

## Left out

- Cloud Monitoring access is not modelled: `_time_interval`,
  `_make_rate_aggregation`, `_list_ts` and the client. Each pass takes the
  fetched series as a parameter.
- Decoding of sample values is not modelled. The `try`/`except` fallbacks
  between `double_value` and `int64_value` are left out. Samples arrive already
  decoded, as `real` for command rates and as `int` for memory gauges.
- Timestamps are `real` seconds. The `datetime.timestamp()` conversion is not
  modelled.
- `collect_for_product` is not modelled as one operation. Its passes run in the
  source order: accumulate, the memory pass plus fallback stamping when the
  table is empty, memory, capacity, categories, flatten. Its exception
  swallowing is I/O. Only the double memory pass has a lemma (`MemAllTwice`).
- `main`'s argument parsing, credentials, the loop over the three products,
  the warning print and the CSV writing are not modelled. The header model
  takes the concatenated rows as its input.
- `msstats.py` (the classifier and reducer) is not part of this model. It
  enters as the `classify` and `reduce` parameters.
- `key_name` is fixed to its defaults, "BytesUsedForCache" and "MaxMemory",
  which are the only values the source passes.
- NodeTables.NodeTable.AccumulateCommands: requires every entry to still hold
  `points`. In the source an entry without `points` would make
  `entry["points"]` raise KeyError, but the source never calls the pass after
  `_apply_processed_categories` removes them.
- Aliasing of entries is not modelled. `_ensure_node_entry` returns a reference
  that the caller mutates. The model reads the entry value, changes it and
  writes it back, which leaves the same table.
- The key order inside an entry dict for `points`, BytesUsedForCache,
  MaxMemory and `commandstats` is a fixed one in the model. It is the order in
  which `collect_for_product` adds them.
- Row cells are `Text` or `Num` values. Python's dynamic typing of dict values
  is not modelled.
