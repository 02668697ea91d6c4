# Crush map queries and storage-group evaluation

This project models the `CrushMap` class of the VSM storage agent
(`source/vsm/vsm/agent/crushmap_parser.py`). The class loads a Ceph crush map, which holds:

- the devices (OSDs);
- the bucket types (host, rack, root, ...);
- the buckets, each listing its item ids (negative for buckets, non-negative for devices);
- the rules, each an ordered list of steps.

Over these the class answers lookups, walks a bucket down to its devices, and runs a rule's
steps to produce one *storage group* per `take` step.

The model has five modules:

- `Wrappers`: the `Option` and `Result` datatypes.
- `Seqs`: the first-match search behind `filter(...)[0]` and the early-return loops, plus an
  order-preserving `Filter` with lemmas about it.
- `CrushMaps`: the loaded map and its lookups, as a datatype, because nothing changes it after
  loading. It also has:
  - the one-level descent by type name, a loop method proved against a specification function;
  - the recursive device walk, a method that appends to a caller-owned `DeviceList` object. It is
    proved against the ghost function `Expand`, a depth-first pre-order expansion.
- `RuleEval`: the step interpreter, a loop method. It is proved equal to a ghost step semantics
  (`Exec`, `Run`, `Evaluate`), and lemmas about that semantics state what each step does.
- `Scenarios`: rules evaluated on a small concrete map, a root -1 holding hosts -2 and -3,
  which hold devices 0, 1 and 2, 3.

Lookups that index `[0]` of an empty filter result raise in `crushmap_parser.py`. Here they
return `Err(NotFound)`. An `emit` before any `take` raises a string there; here it returns
`Err(InvalidRuleFormat)`. Lookups that fall off the end of their loop and return `None` return
`Option` here.

The model reproduces these behaviours of the code, some of which a reader might not expect:

- **On `emit`, the last frontier bucket wins.** Every frontier bucket's walk is assigned to the
  same slot, `storage_groups[sg_count-1]`. With root -1, choose host, emit, the one group holds
  only devices 2, 3, not 0, 1, 2, 3 (`Scenarios.LastFrontierBucketWins`).
- **The frontier is not cleared after `emit`.** A later `take` appends to it, and a later `emit`
  walks the older buckets again.
- **An unknown type name makes the buckets-by-type lookup fail.** It does not return an empty
  list: the `else` branch at line 62 is unreachable, because the type lookup indexes `[0]` first
  (`Scenarios.UnknownTypeFails`).
- **The descent by type fails when an item is a device.** It does not skip such items, because
  every item is looked up as a bucket (`Scenarios.DeviceItemsFailDescent`).
- **A failure aborts the whole rule.** No partial groups are returned, just as in
  `crushmap_parser.py`, where the exception propagates.

## Model

| member | source | states |
|---|---|---|
| CrushMaps.CrushMap.TypeByName | source/vsm/vsm/agent/crushmap_parser.py:48-49 | fails with NotFound exactly when no type has the name; otherwise returns the first type, in load order, with that name |
| CrushMaps.CrushMap.BucketById | source/vsm/vsm/agent/crushmap_parser.py:54-55 | fails with NotFound exactly when no bucket has the id; otherwise returns a loaded bucket with that id |
| CrushMaps.CrushMap.BucketByIdIsFirst | source/vsm/vsm/agent/crushmap_parser.py:54-55 | the bucket found by id is the first one in load order with that id |
| CrushMaps.CrushMap.BucketsByType | source/vsm/vsm/agent/crushmap_parser.py:57-63 | fails exactly when the type name is unknown; otherwise holds every loaded bucket whose type id is the resolved type's, each as often as in the map, and no other bucket, as a subsequence of the buckets in load order |
| CrushMaps.CrushMap.BucketsByName | source/vsm/vsm/agent/crushmap_parser.py:65-68 | nothing exactly when no bucket has the name; otherwise the first bucket with that name |
| CrushMaps.CrushMap.RulesByName | source/vsm/vsm/agent/crushmap_parser.py:84-87 | nothing exactly when no rule has the name; otherwise the first rule with that name |
| CrushMaps.CrushMap.OsdById | source/vsm/vsm/agent/crushmap_parser.py:89-92 | nothing exactly when no device has the id; otherwise the first loaded device with that id |
| CrushMaps.CrushMap.ResolveAll | source/vsm/vsm/agent/crushmap_parser.py:74-75 | looking up a list of ids as buckets succeeds exactly when each id names a bucket, and then yields, position by position, the bucket each id names |
| CrushMaps.CrushMap.ChildrenAreTypedItems | source/vsm/vsm/agent/crushmap_parser.py:70-79 | a bucket is among the children of a given type exactly when it has that type name and is named by one of the parent's items; every child is a loaded bucket |
| CrushMaps.CrushMap.ChildrenByTypeSucceeds | source/vsm/vsm/agent/crushmap_parser.py:72-75 | the descent succeeds exactly when the parent exists and every one of its items names a bucket |
| CrushMaps.CrushMap.GetChildrenByType | source/vsm/vsm/agent/crushmap_parser.py:70-79 | the appending loop returns the in-order filter, by type name, of the buckets the items name, and fails as soon as one item is not a bucket |
| CrushMaps.CrushMap.GetAllOsdsByBucket | source/vsm/vsm/agent/crushmap_parser.py:102-114 | the walk appends the depth-first pre-order expansion of the id to the caller's list, keeps the earlier entries as a prefix, and returns the same list; it fails exactly when the expansion meets an unknown bucket id, and then keeps at least the earlier entries |
| CrushMaps.CrushMap.ItemIsLower | source/vsm/vsm/agent/crushmap_parser.py:110-112 | every item of a bucket is strictly lower in the containment graph, so the recursion terminates |
| CrushMaps.CrushMap.ExpandItemsFailureSticks | source/vsm/vsm/agent/crushmap_parser.py:111-112 | once an item's walk fails, the walk of the whole bucket fails |
| CrushMaps.CrushMap.ExpandYieldsDevices | source/vsm/vsm/agent/crushmap_parser.py:104-106 | every device a walk reaches is a loaded device with a non-negative id |
| CrushMaps.CrushMap.ExpandLeafBucket | source/vsm/vsm/agent/crushmap_parser.py:104-112 | a bucket holding only device ids expands to one device lookup per item, in item order |
| RuleEval.GetStorageGroupsByRule | source/vsm/vsm/agent/crushmap_parser.py:116-152 | the step loop returns exactly the storage groups of the step semantics, or its first error |
| RuleEval.DescendFrontier | source/vsm/vsm/agent/crushmap_parser.py:134-142 | a choose step's loop returns the concatenation, in frontier order, of each frontier bucket's children of the chosen type |
| RuleEval.EmitFrontier | source/vsm/vsm/agent/crushmap_parser.py:144-149 | an emit's loop writes each frontier bucket's walk, in a fresh list, into the newest group, as the step semantics says |
| RuleEval.Evaluate | source/vsm/vsm/agent/crushmap_parser.py:116-152 | a successful evaluation returns one storage group per `take` step |
| RuleEval.GroupCountIsTakeCount | source/vsm/vsm/agent/crushmap_parser.py:129-131 | after any successful run, the take counter and the number of groups both equal the number of `take` steps |
| RuleEval.TakeOpensGroup | source/vsm/vsm/agent/crushmap_parser.py:129-132 | `take` succeeds exactly when the bucket exists; it keeps the old groups, adds one empty group and appends the bucket to the frontier |
| RuleEval.ChooseDescends | source/vsm/vsm/agent/crushmap_parser.py:134-142 | a choose step succeeds exactly when the descent below every frontier bucket does; it keeps the groups and counter, and every new frontier bucket has the chosen type name |
| RuleEval.ChooseAllSucceeds | source/vsm/vsm/agent/crushmap_parser.py:137-140 | the descent of a frontier succeeds exactly when the descent below each frontier bucket succeeds |
| RuleEval.ChooseAllTyped | source/vsm/vsm/agent/crushmap_parser.py:137-142 | every bucket a choose step puts in the frontier has the chosen type name and is a loaded bucket |
| RuleEval.EmitFromLastWins | source/vsm/vsm/agent/crushmap_parser.py:147-149 | after handling the first j frontier buckets, the newest group holds the walk of bucket j-1 and nothing else changed |
| RuleEval.EmitFillsLastGroup | source/vsm/vsm/agent/crushmap_parser.py:144-149 | `emit` with no earlier take fails as malformed; otherwise it fails exactly when some frontier walk fails, and on success only the newest group changes, to the last frontier bucket's walk (or not at all for an empty frontier); the frontier stays |
| RuleEval.EmitBeforeTakeFails | source/vsm/vsm/agent/crushmap_parser.py:144-146 | a rule whose first `emit` comes before every `take` fails with InvalidRuleFormat |
| RuleEval.EarlierGroupsFrozen | source/vsm/vsm/agent/crushmap_parser.py:129-149 | further steps never lower the take counter and never change a group older than the newest one |
| RuleEval.StepKeepsOlderGroups | source/vsm/vsm/agent/crushmap_parser.py:127-149 | a single step never lowers the counter and only ever writes the newest group |
| RuleEval.EmitIsIdempotent | source/vsm/vsm/agent/crushmap_parser.py:144-149 | a second `emit` right after a successful `emit` leaves the result unchanged |
| RuleEval.OtherStepsIgnored | source/vsm/vsm/agent/crushmap_parser.py:128-144 | a step with an op the interpreter does not know can be removed from any rule without changing its result |
| RuleEval.GroupsHoldLoadedDevices | source/vsm/vsm/agent/crushmap_parser.py:147-149 | every device in any storage group is a loaded device |
| Scenarios.LastFrontierBucketWins | source/vsm/vsm/agent/crushmap_parser.py:147-149 | take root, choose host, emit gives one group holding only the second host's devices 2, 3 |
| Scenarios.UnpairedTakeLeavesGroupEmpty | source/vsm/vsm/agent/crushmap_parser.py:129-149 | take -2, take -3, emit gives two groups: the first empty, the second holding devices 2, 3 |
| Scenarios.SequentialTakesStaySeparate | source/vsm/vsm/agent/crushmap_parser.py:127-149 | take -2, emit, take -3, emit gives the groups [0, 1] and [2, 3] |
| Scenarios.UnknownTypeFails | source/vsm/vsm/agent/crushmap_parser.py:57-63 | asking for the buckets of a type the map does not define fails instead of returning no buckets |
| Scenarios.DeviceItemsFailDescent | source/vsm/vsm/agent/crushmap_parser.py:74-76 | descending below a host, whose items are devices, fails |
| Scenarios.RootDescendsToHosts | source/vsm/vsm/agent/crushmap_parser.py:70-79 | the hosts below the root come back in item order |
| Scenarios.HostExpands | source/vsm/vsm/agent/crushmap_parser.py:102-114 | a bucket of two devices walks to those two device entries, in item order |

## Left out

- Loading: the constructor reads and parses a JSON file (lines 29-37). Here the map is built
  directly from its five collections.
- Output: the prints at lines 100, 103 and 151 are not modelled. The only other effect of
  `get_all_osds_by_rule` (lines 94-100) is printing take targets, so it is left out too.
- The `__main__` driver (lines 154-182) is not modelled.
- Tunables: `get_tunable_value` (lines 42-43) is a plain lookup in a map of strings, modelled by
  `CrushMap.TunableValue`. The values are never interpreted.
- The getters `get_all_tunables`, `get_all_types`, `get_all_buckets` and `get_all_rules` return a
  stored collection. Here they are the fields of `CrushMap`.
- Item weights, a step's `num`, and the firstn/indep and choose/chooseleaf distinctions are not
  modelled. The code never reads them, and it treats all four choose ops alike. There is no CRUSH
  hashing.
- Exception types: Python's IndexError and the string raise both become `Error` values. The
  model does not say which Python exception is raised.
- `CrushMap.GetAllOsdsByBucket` requires the whole bucket graph to be acyclic. That covers every
  loaded bucket, including one shadowed by an earlier bucket with the same id. `crushmap_parser.py`
  fails only when a walk actually enters a cycle: it recurses until Python's recursion limit. A map
  with a cycle that no walk reaches is outside the model.
- `RuleEval.GetStorageGroupsByRule` carries the same whole-graph acyclicity requirement, and so do
  `RuleEval.Evaluate`, `RuleEval.Run` and `RuleEval.Exec`, because an `emit` walks buckets. In
  `crushmap_parser.py` a rule over a cyclic map succeeds unless an `emit` walk enters the cycle.
  For example, a rule with no steps or only `take` steps still succeeds there.
- `CrushMap.GetAllOsdsByBucket`: on failure it says only that the earlier entries stay in front.
  It does not say how many partial entries were appended before the failing lookup.
- Aliasing: on `emit`, `crushmap_parser.py` stores the very list returned by the walk. Nothing mutates it
  afterwards, so the model stores its contents (a value) instead.
- `CrushMap.BucketById`: its first-match property is stated separately in
  `CrushMap.BucketByIdIsFirst` rather than in its own contract.
- `CrushMap.ChildrenByType`: its contract says only how it fails. Its meaning is stated in
  `CrushMap.ChildrenAreTypedItems` and `CrushMap.ChildrenByTypeSucceeds`.
