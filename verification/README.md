# rebalance: target resolution, report trees and input reading in Dafny

This project models the core of `rebalance`, a tool that rebalances a
portfolio against a hierarchical target allocation. The configuration
(a YAML document) names the positions CSV file, optional cash holdings and
a `target_asset_alloc` mapping. Each target there has a `Constraint`: zero
or more filter values that select a node of the allocation tree, then the
metadata column that splits that node. Its other entries give each value
of that column a percentage of the node. The model covers:

- **Target resolution** (`rebalance/targets.py`).
  - `_Node` with `find` and `leaves` is modelled as the class
    `Tree.AllocationTree`, an arena of node records; `_group_tickers` is
    `Tree.GroupTickers`.
  - `resolve_targets` is in `Targets`. It parses the targets, orders them
    shallowest first, subdivides the tree once per target and flattens the
    leaves into per-ticker percentages.
  - `TargetLaws` proves what a successful resolution guarantees.
- **The scope of a target** (`_tickers_in_scope`, present in both
  `main.py` and `rebalance/plotting.py`). Module `Scope` models it: filter
  values resolve to columns, then tickers are selected. Module `Agreement`
  shows how the scope can differ from the tree.
- **The report tree and the donut rings** (`_build_tree`, `_sub`,
  `_flatten_rings` and `_dfs` in `rebalance/plotting.py`), in module
  `Report`. The ring lists are a Dafny `array` filled in place by a
  recursive method.
- **Input reading** (`rebalance/reader/reader.py`), in module `Reader`:
  - the top-level check of the configuration;
  - the choice and joining of the CSV path;
  - the quantity parser;
  - the row loop of `read_positions`;
  - the cash settings.

Python dicts are association lists `seq<(K, V)>` (`Common.Lookup`,
`Common.Put`), because their insertion order matters here. YAML values are
`Common.Value`. Every loop of the source is a method proved equal to a
specification function, and the properties are lemmas about those
functions.

## Model

| member | source | states |
|---|---|---|
| Tree.FindFrom | rebalance/targets.py:14-29 | navigation ends at a node at or after the start inside the tree, or fails with the leaf-on-path or child-not-found error |
| Tree.FindAppend | rebalance/targets.py:14-29 | following `p + q` is following `p`, then `q` from where `p` ended; an error on `p` is final |
| Tree.AllocationTree.constructor | rebalance/targets.py:9-12 | a new tree is one leaf holding the given tickers and percentage |
| Tree.AllocationTree.Find | rebalance/targets.py:14-29 | the loop over the path returns what `FindFrom` gives; the empty path gives the start node |
| Tree.AllocationTree.Subdivide | rebalance/targets.py:130-136 | the node gets one child per allocation key, in key order; each child holds the key's group and `parent_pct * pct / 100`; the tree stays well formed |
| Tree.AllocationTree.Flatten | rebalance/targets.py:139-147 | the flat allocation and the groups are those of the leaves in depth-first order |
| Tree.SubdividedWellFormed | rebalance/targets.py:130-136 | a subdivision keeps children after their parent and their keys distinct |
| Tree.LeavesOf | rebalance/targets.py:31-37 | the leaves below a node are leaf nodes after it (strictly after a branch) |
| Tree.LeavesBelow | rebalance/targets.py:35-37 | the leaves of a list of children are leaf nodes after their parent |
| Tree.GroupByLookup | rebalance/targets.py:40-46 | the group of a value is the tickers having it, in order; a value no ticker has has no group |
| Tree.GroupByKeysDistinct | rebalance/targets.py:40-46 | every value appears once among the group keys |
| Tree.GroupByPartition | rebalance/targets.py:40-46 | the groups together hold exactly the tickers, as a multiset |
| Tree.GroupTickers | rebalance/targets.py:40-46 | the loop builds the specified dict: distinct keys, a partition of the tickers, each group as above |
| Tree.LeavesCover | rebalance/targets.py:31-37 | in a partitioned tree the leaves below a node together hold exactly the node's tickers |
| Tree.LeavesCoverBelow | rebalance/targets.py:35-37 | the leaves under a list of children hold exactly the children's tickers |
| Tree.LeavesShareOut | rebalance/targets.py:31-37 | in a tree whose children share out their parent exactly, the leaves below a node add up to its percentage |
| Tree.LeavesShareOutBelow | rebalance/targets.py:35-37 | the leaves under a list of children add up to the children's percentages |
| Tree.LeafAppend | rebalance/targets.py:141 | tickers and percentages of a leaf sequence split over concatenation |
| Tree.LeafTickersSnoc | rebalance/targets.py:141 | adding one leaf adds its tickers and its percentage |
| Tree.AddSharesKeys | rebalance/targets.py:146-147 | after adding shares, the keys are the old keys and the leaf's tickers |
| Tree.AddSharesSum | rebalance/targets.py:146-147 | the flat total grows by the share once per ticker |
| Tree.TimesIsProduct | rebalance/targets.py:145-147 | adding a share `n` times adds `n` times the share |
| Tree.SplitEvenly | rebalance/targets.py:145-147 | the per-ticker shares of a leaf add back up to the leaf's percentage |
| Tree.AddSharesFresh | rebalance/targets.py:146-147 | tickers not yet in the flat allocation are appended with their share |
| Tree.FlattenGroups | rebalance/targets.py:141-144 | the groups are the non-empty leaves' tickers, and concatenated they are all leaf tickers |
| Tree.FlattenKeys | rebalance/targets.py:141-147 | the flat allocation has a key for exactly the leaf tickers |
| Tree.FlattenTotal | rebalance/targets.py:141-147 | when no leaf is empty, the flat total is the leaves' total percentage |
| Tree.SharesKeys | rebalance/targets.py:141-147 | the reference flat allocation (one equal share per leaf ticker) has the leaf tickers as keys, in order |
| Tree.FlattenEqualSplit | rebalance/targets.py:141-147 | when no ticker sits in two leaves, each ticker gets exactly its leaf's equal share |
| Tree.CollectByValueSnoc | rebalance/targets.py:132-136 | the children's tickers, taken key by key, grow by the new ticker exactly when its value is a key |
| Tree.CollectByValuePartition | rebalance/targets.py:123-136 | when every ticker's value is a key, the children together hold exactly the parent's tickers |
| Tree.CollectEmpty | rebalance/targets.py:132-136 | a node without tickers gives children without tickers |
| Tree.ChildTickersOfLinks | rebalance/targets.py:132-136 | the new children hold the groups of the allocation keys, in key order |
| Tree.ChildPctOfLinks | rebalance/targets.py:132-136 | the new children's percentages add up to the parent's percentage times the allocation sum over 100 |
| Targets.Strings | rebalance/targets.py:77-78 | a `Constraint` list is read as strings exactly when every item is a string |
| Targets.Without | rebalance/targets.py:82 | the allocations are the target's entries except `Constraint`, in their original order (a subsequence of the entries), with the same lookups and distinct keys kept |
| Targets.ParseTarget | rebalance/targets.py:76-85 | a non-mapping is rejected; a missing, non-list or empty `Constraint` gives the missing-constraint error; then no other entry gives the no-allocations error; then a non-string constraint item is rejected; otherwise the target is its name, the constraint strings and the other entries in order |
| Targets.ParseAll | rebalance/targets.py:76-85 | every target parses, in declaration order, or the error of the first that does not |
| Targets.ParseAllErrPrefix | rebalance/targets.py:76-85 | a prefix that fails decides the whole parse |
| Targets.ParsedOk | rebalance/targets.py:76-85 | parsed targets have a constraint, allocations and distinct allocation keys |
| Targets.ParseTargets | rebalance/targets.py:75-85 | the parsing loop computes `ParseAll` |
| Targets.InsertPermutes | rebalance/targets.py:87 | inserting a target adds exactly it |
| Targets.InsertSorted | rebalance/targets.py:87 | inserting into a sorted list keeps it sorted by constraint length |
| Targets.InsertStable | rebalance/targets.py:87 | an inserted target goes after every target of its own constraint length |
| Targets.NoneOfDepth | rebalance/targets.py:87 | a sorted list holds no target shallower than its first |
| Targets.SortByDepthCorrect | rebalance/targets.py:87 | the sort is sorted by constraint length, a permutation, and stable (targets of each length keep their order) |
| Targets.OfDepthAppend | rebalance/targets.py:87 | the targets of one length split over concatenation |
| Targets.SortByDepthSorted | rebalance/targets.py:87 | sorting a sorted list changes nothing |
| Targets.InsertLast | rebalance/targets.py:87 | a target at least as deep as all others goes last |
| Targets.SortByDepthIdempotent | rebalance/targets.py:87 | sorting twice is sorting once |
| Targets.Numeric | rebalance/targets.py:98 | the allocations are numbers exactly when every value is a number (a bool counts), with keys kept |
| Targets.FirstNotIn | rebalance/targets.py:115-128 | nothing is found exactly when every item is covered; otherwise the first uncovered item |
| Targets.FirstMissing | rebalance/targets.py:115-128 | the checking loop returns `FirstNotIn` |
| TargetLaws.ApplyTargetSumCheck | rebalance/targets.py:97-102 | non-numeric allocations are rejected, a sum more than 0.01 away from 100 is rejected naming the sum, and a target that applies passed this check |
| TargetLaws.ApplyTargetNodeChecks | rebalance/targets.py:104-136 | past the sum check, in the source's order: a navigation error is returned, a subdivided node is rejected, then the first allocation key without tickers, then the first ticker value without an allocation; passing all, the node is subdivided |
| TargetLaws.ApplyTargetAccepts | rebalance/targets.py:93-136 | numeric allocations within tolerance, a path reaching a leaf and allocation keys equal to the values present make the target apply, subdividing that leaf |
| TargetLaws.BadSumExample | rebalance/targets.py:98-102 | allocations of 60 and 30 are rejected, naming the target and 90 |
| TargetLaws.FindFrame | rebalance/targets.py:14-29 | a successful navigation reaches the same node in any larger tree that keeps the branches it passed |
| TargetLaws.SamePathTwice | rebalance/targets.py:105-109 | after one target applies, a second with the same filter path fails, with the already-subdivided error once its sum passes |
| Targets.ApplyTarget | rebalance/targets.py:93-136 | a successful target leaves every existing node's tickers and percentage alone, keeps branches unchanged, adds one node per allocation and keeps the tree well formed; it never fails with the final total error |
| Targets.ApplyAll | rebalance/targets.py:93-136 | applying the targets in order keeps the tree well formed; the final total error cannot arise here |
| Targets.ApplyAllErrPrefix | rebalance/targets.py:93-136 | the first target that fails decides the outcome |
| Targets.ApplyTargetTo | rebalance/targets.py:93-136 | the target step on the tree object does what `ApplyTarget` specifies; on error the tree is unchanged |
| Targets.Grow | rebalance/targets.py:93-136 | the target loop on the tree object does what `ApplyAll` specifies |
| Targets.OrderedTargets | rebalance/targets.py:70-87 | the processed targets are non-empty, sorted by constraint length and each well formed |
| Targets.OrderTargets | rebalance/targets.py:70-87 | the method returns `OrderedTargets` |
| Targets.Build | rebalance/targets.py:70-136 | a successful build yields a well-formed tree and at least one target |
| Targets.LookupValid | rebalance/targets.py:70 | a value read from a valid document is valid |
| Targets.ResolveSpec | rebalance/targets.py:49-156 | a successful resolution totals 100 within the 0.01 tolerance and returns the targets in processing order |
| Targets.ResolveTargets | rebalance/targets.py:49-156 | `resolve_targets` on the tree object returns `ResolveSpec` |
| TargetLaws.WithValueHas | rebalance/targets.py:40-46 | every ticker is in the group of its own value |
| TargetLaws.GroupValueIsKey | rebalance/targets.py:40-46 | every ticker's value is a group key |
| TargetLaws.GroupOfKey | rebalance/targets.py:40-46 | a value is a group key exactly when some ticker has it, and its group is those tickers |
| TargetLaws.CollectGroupBy | rebalance/targets.py:132-136 | reading the groups by allocation key gives the tickers having each key |
| TargetLaws.LinksFrame | rebalance/targets.py:131-136 | appending nodes leaves existing children's tickers and percentages unchanged |
| TargetLaws.SubdividedPartitioned | rebalance/targets.py:112-136 | when every group is covered, the children of the subdivided node partition its tickers |
| TargetLaws.SubdividedConserved | rebalance/targets.py:130-136 | with allocations summing to exactly 100, the children share out exactly the parent's percentage |
| TargetLaws.ApplyTargetSubdivides | rebalance/targets.py:93-136 | a successful target found its node as a leaf, its keys are exactly the values present, and the node got one child per key with that key's tickers and share |
| TargetLaws.ApplyTargetInv | rebalance/targets.py:93-136 | each target keeps the tree invariant: root with all tickers and 100, partitioned children, no empty non-root node, exact sharing when allocations are exact |
| TargetLaws.ApplyAllInv | rebalance/targets.py:93-136 | the whole target loop keeps the invariant and adds nodes |
| TargetLaws.BuildInv | rebalance/targets.py:89-136 | the built tree satisfies the invariant and was subdivided at least once |
| TargetLaws.ResolvedPartition | rebalance/targets.py:139-147 | the groups are non-empty and hold every metadata ticker, and the flat allocation has exactly the metadata tickers as keys |
| TargetLaws.ResolvedExact | rebalance/targets.py:97-154 | when every target sums to exactly 100, the final total check cannot fail and the total is exactly 100 |
| TargetLaws.ResolvedEqualSplit | rebalance/targets.py:139-147 | with distinct tickers, each ticker gets its leaf's percentage divided by the leaf size |
| TargetLaws.ResolvedOrder | rebalance/targets.py:74-87 | the returned targets are the parsed targets sorted by constraint length, stably |
| TargetLaws.ResolveRejects | rebalance/targets.py:70-85 | a missing, non-mapping or empty `target_asset_alloc` is rejected, and a target that does not parse is reported |
| Scope.FirstInRowSnoc | main.py:19-22 | a later cell of a row matters only when no earlier cell held the value |
| Scope.FirstColumnSnoc | main.py:19-22 | a later ticker matters only when no earlier ticker held the value |
| Scope.AddRowLookup | main.py:20-22 | a row adds a value's column only for a non-empty value not yet indexed |
| Scope.ValueIndexFirst | main.py:17-22 | the reverse lookup maps each non-empty value to the first column holding it, scanning tickers then columns |
| Scope.BuildValueIndex | main.py:17-22 | the nested loops build that reverse lookup |
| Scope.ConditionsResolved | main.py:24 | a condition is a filter value paired with its resolved column, exactly for the values that resolve |
| Scope.SelectSubsequence | main.py:26-29 | the selected tickers keep the metadata order |
| Scope.SelectMembers | main.py:26-29 | a ticker is selected exactly when its row meets every condition |
| Scope.SelectInKeys | main.py:26-29 | only metadata tickers are selected |
| Scope.TickersInScope | main.py:13-29 | the method returns the specified scope |
| Scope.ScopeMembers | rebalance/plotting.py:118-128 | the scope lists, in order, exactly the tickers whose row holds each resolvable filter value in that value's column; this is the same function as in `main.py` |
| Scope.ScopeIgnoresGroupingColumn | main.py:15 | the last constraint entry, the grouping column, does not affect the scope |
| Scope.SelectAll | main.py:26-29 | no condition selects every ticker |
| Agreement.ScopeFirstColumnExample | main.py:13-29 | a filter value held in two columns resolves to the first, so the scope of a path can differ from the tickers of the tree node on that path |
| Scope.ScopeUnfiltered | main.py:15-29 | a constraint with no filter values scopes to every ticker |
| Report.TableLastWins | rebalance/plotting.py:14-18 | a path has a subdivision exactly when some target has it, and the entry is that of the last such target |
| Report.TableSize | rebalance/plotting.py:14-18 | there are at most as many subdivisions as targets |
| Report.BuildTable | rebalance/plotting.py:14-18 | the loop builds the subdivision table |
| Report.KeysFromShrinks | rebalance/plotting.py:22-33 | descending one level leaves strictly fewer subdivisions reachable, so `_sub` terminates |
| Report.KidsShape | rebalance/plotting.py:29-33 | children follow the key order, skip keys without tickers, hold their group and are built recursively |
| Report.SubShape | rebalance/plotting.py:22-33 | a path without subdivision has no children; otherwise one child per key that has tickers, in key order, holding exactly those tickers and subdivided at the extended path |
| Report.DepthMono | rebalance/plotting.py:22-33 | a depth bound also holds for any larger bound |
| Report.SubDepth | rebalance/plotting.py:22-36 | the tree below a path is no deeper than the number of subdivisions reachable from it |
| Report.Sub | rebalance/plotting.py:22-33 | the recursive method builds the specified children |
| Report.SortedConstrained | rebalance/plotting.py:14 | sorting keeps every target and its constraint |
| Report.BuildTree | rebalance/plotting.py:12-36 | the root has no label and every ticker, the category count is the target count, and the tree is no deeper than that count |
| Report.ResolvedDrawable | rebalance/plotting.py:14 | targets returned by `resolve_targets` are already sorted, so the re-sort changes nothing, and each has a constraint |
| Report.Emit | rebalance/plotting.py:44-59 | a visit keeps the number of rings |
| Report.EmitAll | rebalance/plotting.py:49-50 | visiting children keeps the number of rings |
| Report.EmitTop | rebalance/plotting.py:61-62 | visiting the top-level nodes keeps the number of rings |
| Report.RingsSpec | rebalance/plotting.py:39-63 | there are `n_cat + 1` rings |
| Report.GrownTrans | rebalance/plotting.py:44-59 | growth of rings by appending wedges of a group composes |
| Report.OwnWedge | rebalance/plotting.py:46-47 | a node's own wedge is appended to its depth's ring only |
| Report.LeafWedges | rebalance/plotting.py:51-59 | a leaf spans every ring below it up to the outer ring, then adds one wedge per ticker to the outer ring |
| Report.EmitShape | rebalance/plotting.py:44-59 | a visit only appends wedges of its group, leaves shallower rings alone, puts the node's wedge on its own ring and adds at least one wedge to every ring from its depth to the last category ring |
| Report.EmitAllShape | rebalance/plotting.py:49-50 | visiting children appends only their group's wedges below the depth, and at least one to each such ring when there is a child |
| Report.EmitOuter | rebalance/plotting.py:56-59 | a visit adds to the outer ring one wedge per ticker of the node's leaves, in depth-first order |
| Report.EmitAllOuter | rebalance/plotting.py:49-50 | visiting children adds their leaves' tickers to the outer ring in order |
| Report.TickerWedgesAppend | rebalance/plotting.py:56-59 | ticker wedges split over concatenation |
| Report.TopRing | rebalance/plotting.py:61-62 | the inner ring gets the top-level nodes' wedges, each numbered by its position, and every new wedge has such a number |
| Report.FlattenedRings | rebalance/plotting.py:39-63 | the rings are `n_cat + 1`, the inner ring is the top-level nodes in order, every group number names a top-level node, and the outer ring lists the leaves' tickers in depth-first order |
| Report.OuterRing | rebalance/plotting.py:56-62 | the outer ring's labels are the leaf tickers of the top-level nodes, in order |
| Report.Dfs | rebalance/plotting.py:44-59 | the recursive visit updates the ring array as `Emit` specifies |
| Report.AddSpans | rebalance/plotting.py:52-55 | the span loop appends the node's span wedge to the rings from `depth + 1` to the last category ring |
| Report.AddTickers | rebalance/plotting.py:56-59 | the ticker loop appends one wedge per ticker to the outer ring and changes nothing else |
| Report.FlattenRings | rebalance/plotting.py:39-63 | the ring array is new and holds `RingsSpec` |
| Reader.LoadConfig | rebalance/reader/reader.py:23-28 | a document is accepted exactly when its top level is a mapping, and then it is that mapping |
| Reader.SegmentsJoin | rebalance/reader/reader.py:42 | splitting well-formed parts joined by `/` gives the parts back |
| Reader.KeptSegmentsOk | rebalance/reader/reader.py:42 | well-formed parts are all kept |
| Reader.ParsedPartsOk | rebalance/reader/reader.py:42 | a parsed path has parts that are non-empty, not `.`, and free of `/` |
| Reader.ParseRenderEmpty | rebalance/reader/reader.py:42 | `/` and `.` read back as themselves |
| Reader.ParseRender | rebalance/reader/reader.py:42 | printing a well-formed path and reading it back gives the path |
| Reader.CsvValue | rebalance/reader/reader.py:31-36 | over the keys of `CSV_PATH_KEYS` in order, nothing is found exactly when no key's value is truthy; otherwise the value of the first key whose value is truthy |
| Reader.CsvPathSpec | rebalance/reader/reader.py:31-45 | an error exactly when no key gives a truthy value or the value is not text; an absolute path is kept, a relative one is taken from the configuration file's directory |
| Reader.ResolveCsvPath | rebalance/reader/reader.py:31-45 | the loop with its `break` computes `CsvPathSpec` |
| Reader.TrimLeftSuffix | rebalance/reader/reader.py:49 | stripping the left leaves a suffix, drops only whitespace and stops at a non-space |
| Reader.TrimRightPrefix | rebalance/reader/reader.py:49 | stripping the right leaves a prefix, drops only whitespace and stops at a non-space |
| Reader.StripSlice | rebalance/reader/reader.py:49 | `strip()` is the slice between leading and trailing whitespace and has non-space ends |
| Reader.RemoveCommasSpec | rebalance/reader/reader.py:49 | no comma is left, and nothing is left exactly when the text was only commas |
| Reader.RemoveCommasOrder | rebalance/reader/reader.py:49 | the other characters stay in order |
| Reader.RemoveCommasCount | rebalance/reader/reader.py:49 | the other characters are kept as often as they occur |
| Reader.ParseQuantity | rebalance/reader/reader.py:48-55 | an empty cleaned text is a missing quantity; a non-empty one that `float()` refuses is an invalid quantity naming the raw cell; otherwise the result is the parsed value |
| Reader.QuantityMissing | rebalance/reader/reader.py:48-51 | a quantity is missing exactly when the cell is absent or only commas once stripped; the parser never sees a comma |
| Reader.Scan | rebalance/reader/reader.py:66-74 | the scan gives as many quantities as tickers |
| Reader.KeptRowsStop | rebalance/reader/reader.py:67-69 | rows after the first row without a symbol are never read |
| Reader.KeptRowsOrder | rebalance/reader/reader.py:66-74 | the rows that become positions keep their order |
| Reader.KeptRowsSymbols | rebalance/reader/reader.py:67-71 | every row that becomes a position has a symbol that is not the sweep fund, in any letter case |
| Reader.ParseEachMeaning | rebalance/reader/reader.py:72-74 | parsing rows one by one gives one ticker and quantity per row in order, or the error of the first row that fails |
| Reader.ScanMeaning | rebalance/reader/reader.py:66-74 | the row loop is the parse of the rows before the first blank symbol, minus the sweep fund |
| Reader.ParseEachStep | rebalance/reader/reader.py:72-74 | the first row is parsed before the rest |
| Reader.ReadSpec | rebalance/reader/reader.py:58-77 | a result has at least one ticker and one quantity per ticker; no headers is an error |
| Reader.ScanBlank | rebalance/reader/reader.py:68-69 | the scan ends at a blank symbol |
| Reader.ScanSweep | rebalance/reader/reader.py:70-71 | the sweep row adds nothing |
| Reader.ScanTicker | rebalance/reader/reader.py:72-74 | any other row is parsed; its error is the result, or its ticker and quantity are appended |
| Reader.ReadPositions | rebalance/reader/reader.py:58-77 | the loop with `break`, `continue` and the raising parse computes `ReadSpec` |
| Reader.CashConfig | rebalance/reader/reader.py:80-93 | no settings exactly when both are absent; incomplete exactly when one is absent; the lists exactly when both are lists; `chash_amounts` stands in when `cash_amounts` is absent or null |
| Reader.CashAmountsFirst | rebalance/reader/reader.py:81-83 | `chash_amounts` is ignored whenever `cash_amounts` is set |

## Left out

- Plotting with matplotlib (`_make_colors`, `_draw_donut`, tables and figures), `_print_report`, `main()`, `Portfolio`, `parse_args`: these are outside the modelled core or are output only.
- File I/O, `yaml.safe_load`, `csv.DictReader` and header stripping are left out. The document arrives as a `Value`, the CSV header names as a sequence, and each row as a `Reader.Row` holding the `Symbol` and `Quantity` cells.
- `float()` is left out: `Reader.ParseQuantity` takes it as the parameter `parse`. Floating-point arithmetic is modelled by exact `real` arithmetic, so rounding in sums and shares is not modelled.
- `Path.resolve()` is left out because it needs the file system and the working directory. `Reader.CsvPathSpec` returns the joined path unresolved, and a relative configuration path stays relative.
- `Reader.ParsePath` does not model POSIX's special case of a path starting with exactly two slashes.
- `Reader.Upper`: only ASCII letters and the long s (which upper-cases to `S`) are upper-cased. These are the characters that can make a symbol read `SPAXX**`; the rest of Unicode case mapping is left out.
- `_Node` objects are records in an arena (`Tree.AllocationTree.nodes`), and a reference is an index. There is no aliasing between trees.
- The report nodes of `_build_tree` are immutable values. `Report.Sub` builds each child fully before attaching it, which ends in the same dict as the source's attach-then-fill order.
- Constraint entries that are not strings are rejected (`NonStringConstraint`), while the source would use them as lookup keys and usually find no child.
- `Common.Value` mappings have string keys only. `yaml.safe_load` also gives int, float, bool and null keys: an allocation `yes: 60` / `no: 40` loads as `{True: 60, False: 40}`, and the source then fails with the no-matching-tickers error, since metadata values are strings. The model cannot state such a configuration; written with the keys as text it resolves instead.
- Not-a-number allocations (`.nan`) are not modelled. In the source, `abs(total - 100.0) > 0.01` is false for NaN, so such allocations pass both sum checks and resolve to NaN percentages; `real` has no NaN.
- Scope.ScopeSpec: no lemma ties the scope of a target to the tickers of the tree node its filter path reaches. They can differ, because a filter value held in several columns resolves to the first of them anywhere in the metadata, while the tree splits by the column of the parent target; `Agreement.ScopeFirstColumnExample` gives such metadata.
- `Tree.ColumnValue`: a ticker missing from the metadata reads as the empty value. The source would raise `KeyError` there, but every ticker comes from the metadata.
- `Report.BuildTree` requires every target to have a constraint. `Report.ResolvedDrawable` proves this holds for whatever `resolve_targets` returns.
- The values of the `alloc` argument to `_flatten_rings` are taken as given. Nothing is proved about ring totals beyond the wedge layout.
- `read_positions` returns two values, while `main.py` unpacks three. `main()` is not part of this model.
