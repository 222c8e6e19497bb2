# Coupling graph adapter and hotspot file-name trimming

This project models two pieces of a code-analysis front end.

- **The coupling-graph adapter** (`graph.adapter.ts`) turns a coupling measurement into the nodes and edges of a compound graph. A measurement holds slash-delimited dimension names, an N x N matrix of connection counts and per-dimension counts.
  - `findGroups` collects the distinct directory parts of the names, in first-occurrence order.
  - `createGroups` sorts them and builds one group node `G<i>` per path. Each group points to its nearest enclosing group, found by `findParent`: the longest group path that, followed by `/`, starts the name. Each group's parent is looked up only among the groups built before it.
  - `createNodes` builds one leaf per dimension, with id `"<i>"`, its last path segment as label, and a parent found the same way. Its summary holds the off-diagonal row and column sums (`sumRow`, `sumCol`).
  - `createEdges` scans the matrix row by row. It emits an edge for every cell that reaches the threshold, the diagonal included.
- **The hotspot detail table** (`hotspot.component.ts`). `trimSegments` removes the selected module's path and the character after it from a file name, when the name starts with that path. `formatHotspots` applies it to every row.

The modules are:

- `Wrappers`: `Option`.
- `JsStrings`: the JavaScript string operations used: `startsWith`, one-argument `substring`, `split`/`join` on `/`, and `'' + i` with its inverse parse.
- `JsSort`: the default `Array.prototype.sort` order on strings, and `sort()` as a function returning the sorted permutation.
- `GraphAdapter`: the adapter. Its loops are methods with loop invariants, proved against specification predicates (`IsGroupList`, `IsLeafList`, `Edges`, `RowSum`, `ColSum`). A node's displayed `label` is the field `caption` of `Node`, since `label` is a Dafny keyword. `findParent` is a pair of functions: `Candidates` is the filter, `Longest` the reduce.
- `Hotspot`: `trimSegments` and `formatHotspots`. The selected module (`this.selectedRow.module`) is a parameter.
- `Scenarios`: worked examples on concrete measurements.

Three consequences of the code as written are worth knowing:

- A dimension without a slash contributes the empty group path, so the code builds a group node with dimension `""` and label `""`. For `["m"]` that is the one group `G0`, and the leaf `m` is not placed in it (`Scenarios.SlashlessDimension`).
- The empty group is a candidate parent of every name that starts with `/` (`GraphAdapter.EmptyGroupCandidate`).
- For `["a", "a/b", "a/b/c"]` the groups are `G0` = `""`, `G1` = `a` and `G2` = `a/b`. `a/b` sits in `G1`, and neither `a` nor `""` has a parent (`Scenarios.NestedGroups`).

## Model

| member | source | states |
|---|---|---|
| JsStrings.StartsWith | frontend/src/app/hotspot/hotspot.component.ts:145 | `s.startsWith(p)`: `p` is no longer than `s` and equals the prefix of `s` of its length; no contract of its own |
| JsStrings.Substring | frontend/src/app/hotspot/hotspot.component.ts:146 | a start past the end clamps to the empty string; otherwise the result is the suffix after the start |
| JsStrings.Split | apps/frontend/src/app/features/coupling/graph.adapter.ts:149 | `split('/')` yields at least one part and no part contains the separator |
| JsStrings.Join | apps/frontend/src/app/features/coupling/graph.adapter.ts:150 | `parts.join(sep)`: no parts give `""`, one part is itself, otherwise the parts with `sep` between them; `JoinSplit` states its inverse relation to `Split`, no contract of its own |
| JsStrings.JoinSplit | apps/frontend/src/app/features/coupling/graph.adapter.ts:149-150 | joining the parts of a split with the same separator gives back the string |
| JsStrings.SplitWithoutSeparator | apps/frontend/src/app/features/coupling/graph.adapter.ts:149 | a name without the separator splits into itself alone |
| JsStrings.NumberToString | apps/frontend/src/app/features/coupling/graph.adapter.ts:19-20 | `'' + i` is a non-empty string of decimal digits |
| JsStrings.DecimalRoundTrip | apps/frontend/src/app/features/coupling/graph.adapter.ts:80 | parsing the rendering of `n` gives `n` back |
| JsStrings.NumberToStringInjective | apps/frontend/src/app/features/coupling/graph.adapter.ts:80 | distinct indices render as distinct ids |
| JsSort.Less | apps/frontend/src/app/features/coupling/graph.adapter.ts:39 | the string order `sort()` uses: character by character, a proper prefix first; its properties are in the lemmas `LessIrreflexive`, `LessTransitive`, `LessTotal` and `ProperPrefixIsLess`, no contract of its own |
| JsSort.LessIrreflexive | apps/frontend/src/app/features/coupling/graph.adapter.ts:39 | no string sorts before itself |
| JsSort.LessTransitive | apps/frontend/src/app/features/coupling/graph.adapter.ts:39 | the default string order is transitive |
| JsSort.LessTotal | apps/frontend/src/app/features/coupling/graph.adapter.ts:39 | of two different strings one sorts before the other |
| JsSort.ProperPrefixIsLess | apps/frontend/src/app/features/coupling/graph.adapter.ts:39 | a proper prefix sorts before the string it prefixes |
| JsSort.Sort | apps/frontend/src/app/features/coupling/graph.adapter.ts:39 | `groups.sort()` returns a permutation of its input in which no later element sorts before an earlier one |
| JsSort.SortDistinct | apps/frontend/src/app/features/coupling/graph.adapter.ts:39 | sorting a duplicate-free list gives a duplicate-free, strictly increasing list |
| GraphAdapter.LastSegment | apps/frontend/src/app/features/coupling/graph.adapter.ts:47 | the last part of `split('/')` holds no slash, and a name without a slash is its own last segment (the same expression labels leaves at line 81) |
| GraphAdapter.GroupPath | apps/frontend/src/app/features/coupling/graph.adapter.ts:149-150 | a name without a slash has the empty group path |
| GraphAdapter.PathDecomposition | apps/frontend/src/app/features/coupling/graph.adapter.ts:149-150 | a name with a slash is its group path, `/` and its last segment |
| GraphAdapter.IsCandidate | apps/frontend/src/app/features/coupling/graph.adapter.ts:134 | `startsWith(dimension + '/')` holds exactly when the group's path is a proper prefix of the name followed there by `/` |
| GraphAdapter.Candidates | apps/frontend/src/app/features/coupling/graph.adapter.ts:133-135 | the filter keeps only candidate parents, and keeps every group that is one |
| GraphAdapter.Longest | apps/frontend/src/app/features/coupling/graph.adapter.ts:137-141 | the reduce returns its start or one of the candidates, and no candidate and not the start has a longer path than the result |
| GraphAdapter.LongestOfCandidates | apps/frontend/src/app/features/coupling/graph.adapter.ts:137-141 | the reduce either keeps its start, when no candidate is longer, or ends on the first candidate of the greatest length |
| GraphAdapter.FindParent | apps/frontend/src/app/features/coupling/graph.adapter.ts:130-144 | no parent exactly when no group is a candidate; otherwise a candidate that no candidate outranks in length, with ties going to the first |
| GraphAdapter.CandidateComesEarlier | apps/frontend/src/app/features/coupling/graph.adapter.ts:39-54 | in strictly sorted groups, a candidate parent of group i has a smaller index and a shorter path |
| GraphAdapter.IncrementalParent | apps/frontend/src/app/features/coupling/graph.adapter.ts:54 | in strictly sorted groups, searching only the groups before i finds the same parent as searching all of them |
| GraphAdapter.FirstOccurrencesStep | apps/frontend/src/app/features/coupling/graph.adapter.ts:148-151 | adding one path to the set keeps it duplicate-free, equal in elements to the paths read and in first-occurrence order |
| GraphAdapter.FindGroups | apps/frontend/src/app/features/coupling/graph.adapter.ts:146-154 | the result is duplicate-free, holds exactly the group paths of the labels, and lists them in order of first occurrence |
| GraphAdapter.CreateGroup | apps/frontend/src/app/features/coupling/graph.adapter.ts:42-60 | the node built for a path after k groups has id `G<k>`, the path, its last segment and the parent `findParent` picks among the groups built so far |
| GraphAdapter.AppendBuilt | apps/frontend/src/app/features/coupling/graph.adapter.ts:41-61 | pushing the node built for the next sorted path keeps every node the one built after its predecessors |
| GraphAdapter.BuiltGroupsAreGroupList | apps/frontend/src/app/features/coupling/graph.adapter.ts:35-63 | groups built in sorted order, each against its predecessors, meet the group-list specification in which each parent is looked up among all groups |
| GraphAdapter.CreateGroups | apps/frontend/src/app/features/coupling/graph.adapter.ts:35-63 | one group per distinct group path, in strictly increasing path order, with id `G<i>`, its last segment as label, and the parent `findParent` picks among all the groups |
| GraphAdapter.GroupId | apps/frontend/src/app/features/coupling/graph.adapter.ts:46 | `'G' + i`; `GroupIdsUnique` states that distinct indices give distinct ids, no contract of its own |
| GraphAdapter.GroupIdsUnique | apps/frontend/src/app/features/coupling/graph.adapter.ts:46 | group ids are pairwise distinct |
| GraphAdapter.ParentId | apps/frontend/src/app/features/coupling/graph.adapter.ts:56-57 | the `parent` field set when `findParent` returns a group, left unset otherwise (also lines 101-102); `GroupListParentsPrecede` and `LeafParentResolves` state what it refers to, no contract of its own |
| GraphAdapter.GroupParentEarlier | apps/frontend/src/app/features/coupling/graph.adapter.ts:54-58 | a group's parent is a group with a smaller index and a strictly shorter path, whose path and `/` start the child's path, and no such group has a longer path |
| GraphAdapter.GroupListParentsPrecede | apps/frontend/src/app/features/coupling/graph.adapter.ts:54-58 | every parent reference names a group earlier in the list, so none dangles |
| GraphAdapter.Ancestors | apps/frontend/src/app/features/coupling/graph.adapter.ts:54-58 | every enclosing group of group i has a smaller index |
| GraphAdapter.GroupContainmentAcyclic | apps/frontend/src/app/features/coupling/graph.adapter.ts:54-58 | no group is among its own ancestors |
| GraphAdapter.EmptyGroupCandidate | apps/frontend/src/app/features/coupling/graph.adapter.ts:133-135 | the empty group is a candidate parent exactly of the names starting with `/` |
| GraphAdapter.SlashlessNameYieldsEmptyGroup | apps/frontend/src/app/features/coupling/graph.adapter.ts:149-151 | a dimension without a slash puts a group with the empty path in the list |
| GraphAdapter.SlashlessHasNoCandidate | apps/frontend/src/app/features/coupling/graph.adapter.ts:133-135 | a name without a slash has no candidate parent |
| GraphAdapter.CandidateWithinGroupPath | apps/frontend/src/app/features/coupling/graph.adapter.ts:133-141 | a candidate parent of a name is no longer than the name's group path, and as long only if it is that path |
| GraphAdapter.GroupPathIsCandidate | apps/frontend/src/app/features/coupling/graph.adapter.ts:133-135 | the group whose path is a name's directory part is a candidate parent of it |
| GraphAdapter.ParentOfDimension | apps/frontend/src/app/features/coupling/graph.adapter.ts:99-103 | against the groups of the same dimensions, a name with a slash resolves to the group of its own directory part, and one without resolves to none |
| GraphAdapter.SumRow | apps/frontend/src/app/features/coupling/graph.adapter.ts:110-118 | the loop computes the sum of row i without its diagonal cell |
| GraphAdapter.SumCol | apps/frontend/src/app/features/coupling/graph.adapter.ts:120-128 | the loop computes the sum of column i without its diagonal cell |
| GraphAdapter.SumsExcludeDiagonal | apps/frontend/src/app/features/coupling/graph.adapter.ts:113-114 | the row and column sums are the full row and column totals less the diagonal cell |
| GraphAdapter.SumsNonNegative | apps/frontend/src/app/features/coupling/graph.adapter.ts:110-128 | with non-negative entries both sums are non-negative |
| GraphAdapter.SymmetricSums | apps/frontend/src/app/features/coupling/graph.adapter.ts:110-128 | for a symmetric matrix the outgoing and incoming sums are equal |
| GraphAdapter.Soc | apps/frontend/src/app/features/coupling/graph.adapter.ts:75 | the i-th sum of coupling, or -1 when the result carries none; no contract of its own |
| GraphAdapter.LeafSummary | apps/frontend/src/app/features/coupling/graph.adapter.ts:82-94 | the counts the tooltip shows: file count, cohesion and the off-diagonal row and column sums for the structure graph, commits and sum of coupling otherwise; `CreateLeaf` states it is the leaf's summary, no contract of its own |
| GraphAdapter.CreateLeaf | apps/frontend/src/app/features/coupling/graph.adapter.ts:72-105 | leaf i has id `'' + i`, the last segment as label, the full name as dimension, the parent `findParent` picks, and the counts its tooltip shows |
| GraphAdapter.CreateNodes | apps/frontend/src/app/features/coupling/graph.adapter.ts:65-108 | one leaf per dimension, in input order, each as `CreateLeaf` states |
| GraphAdapter.NodeIdsUnique | apps/frontend/src/app/features/coupling/graph.adapter.ts:80 | leaf ids are pairwise distinct and differ from every group id |
| GraphAdapter.LeafParentResolves | apps/frontend/src/app/features/coupling/graph.adapter.ts:99-103 | a leaf's parent id names a group that is a candidate parent of the leaf |
| GraphAdapter.LeafParentIsGroupPath | apps/frontend/src/app/features/coupling/graph.adapter.ts:99-103 | with the groups of the same dimensions, a leaf with a slash sits in the group of its directory part, and a leaf without one has no parent |
| GraphAdapter.CreateEdges | apps/frontend/src/app/features/coupling/graph.adapter.ts:7-33 | the nested loops emit exactly the edges of the cells that reach the threshold, in row-major order |
| GraphAdapter.ScanStep | apps/frontend/src/app/features/coupling/graph.adapter.ts:16-28 | scanning one cell appends its edge exactly when the cell reaches the threshold |
| GraphAdapter.RowCellsMembership | apps/frontend/src/app/features/coupling/graph.adapter.ts:15-16 | a cell of row i is scanned and kept exactly when it reaches the threshold |
| GraphAdapter.MatrixCellsMembership | apps/frontend/src/app/features/coupling/graph.adapter.ts:14-16 | a cell is kept exactly when it is in the matrix and reaches the threshold |
| GraphAdapter.EdgeAtInjective | apps/frontend/src/app/features/coupling/graph.adapter.ts:19-20 | an edge's source and target determine its cell |
| GraphAdapter.EdgeEmittedIff | apps/frontend/src/app/features/coupling/graph.adapter.ts:14-28 | the edge `"i"` to `"j"` with weight `m[i][j]` is emitted, diagonal included, exactly when `m[i][j]` reaches the threshold |
| GraphAdapter.EdgesFromCells | apps/frontend/src/app/features/coupling/graph.adapter.ts:16-21 | every edge comes from a cell that reaches the threshold and carries that cell's value |
| GraphAdapter.MatrixCellsOrdered | apps/frontend/src/app/features/coupling/graph.adapter.ts:14-15 | the kept cells are strictly increasing in row-major order |
| GraphAdapter.EdgesRowMajor | apps/frontend/src/app/features/coupling/graph.adapter.ts:14-28 | every edge's source and target are decimal indices, the edges are strictly increasing in row-major order of their (source, target) pairs, and so no edge occurs twice |
| GraphAdapter.CellCountBound | apps/frontend/src/app/features/coupling/graph.adapter.ts:14-15 | the first k rows keep at most k * N cells |
| GraphAdapter.EdgeCountBound | apps/frontend/src/app/features/coupling/graph.adapter.ts:14-16 | there are at most N * N edges |
| GraphAdapter.MatrixThreshold | apps/frontend/src/app/features/coupling/graph.adapter.ts:14-16 | over the first k rows, the edges for a higher threshold are the lower threshold's edges filtered by the higher one |
| GraphAdapter.ThresholdMonotone | apps/frontend/src/app/features/coupling/graph.adapter.ts:14-16 | raising the threshold keeps exactly the lower threshold's edges that reach it, in the same order, so they are a subsequence and a subset |
| Hotspot.TrimSegments | frontend/src/app/hotspot/hotspot.component.ts:144-149 | the result is a suffix of the name and no longer than it; a name that does not start with the prefix is kept |
| Hotspot.TrimDropsPrefixAndOne | frontend/src/app/hotspot/hotspot.component.ts:145-146 | a matching name loses its first `\|prefix\| + 1` characters, or becomes empty when it is the prefix itself |
| Hotspot.TrimAfterPrefix | frontend/src/app/hotspot/hotspot.component.ts:145-146 | the character after the prefix is dropped whatever it is |
| Hotspot.TrimModulePath | frontend/src/app/hotspot/hotspot.component.ts:145-146 | `prefix + "/" + rest` trims to `rest` |
| Hotspot.TrimWholeName | frontend/src/app/hotspot/hotspot.component.ts:144-149 | the module's own name trims to the empty string |
| Hotspot.TrimEmptyPrefix | frontend/src/app/hotspot/hotspot.component.ts:145-146 | with an empty prefix exactly the first character goes |
| Hotspot.TrimUnchangedIff | frontend/src/app/hotspot/hotspot.component.ts:144-149 | the name comes back unchanged exactly when it does not start with the prefix or is empty |
| Hotspot.FormatHotspots | frontend/src/app/hotspot/hotspot.component.ts:102-107 | the list keeps its length and order; each row's file name is trimmed and every other field is kept |
| Hotspot.FormatHotspotsAppend | frontend/src/app/hotspot/hotspot.component.ts:102-107 | formatting a concatenation formats each part |
| Hotspot.FormatOutsideModule | frontend/src/app/hotspot/hotspot.component.ts:102-107 | rows whose names lie outside the module are unchanged |
| Scenarios.OnlyGroup | apps/frontend/src/app/features/coupling/graph.adapter.ts:35-63 | dimensions that all share one directory part give the single group `G0` for it, without a parent |
| Scenarios.TwoFilesGroups | apps/frontend/src/app/features/coupling/graph.adapter.ts:35-63 | `["x/a", "x/b"]` gives one group `x` with id `G0` and no parent |
| Scenarios.TwoFilesLeaves | apps/frontend/src/app/features/coupling/graph.adapter.ts:65-108 | the two leaves are `0` and `1`, both in `G0`, with outgoing and incoming sums 5, 2 and 2, 5 |
| Scenarios.TwoFilesEdges | apps/frontend/src/app/features/coupling/graph.adapter.ts:7-33 | threshold 1 on `[[0, 5], [2, 0]]` gives the edges `0` to `1` (weight 5) and `1` to `0` (weight 2), in that order |
| Scenarios.TwoFilesNoEdges | apps/frontend/src/app/features/coupling/graph.adapter.ts:7-33 | threshold 6 gives no edges |
| Scenarios.SlashlessDimension | apps/frontend/src/app/features/coupling/graph.adapter.ts:146-154 | `["m"]` gives one group with the empty path, and the leaf `m` has no parent |
| Scenarios.NestedGroups | apps/frontend/src/app/features/coupling/graph.adapter.ts:35-63 | `["a", "a/b", "a/b/c"]` gives the groups `""`, `a` and `a/b`, in that order; only `a/b` has a parent, namely `a` |

## Left out

- Tooltip HTML (graph.adapter.ts lines 22-26 and 82-94) is not modelled. The counts a leaf's tooltip shows are kept as a `Summary`: file count, cohesion, outgoing and incoming sums for the structure graph, and commits with the sum of coupling for the change graph. A group's tooltip equals its dimension, so it is not kept separately.
- `relSoc` (line 76) and the "SoC per Commit" percentage: floating-point division and `Math.round`, with no guard against a zero file count. Only the integer `soc` is kept, with `-1` when `sumOfCoupling` is absent.
- The edge-label delimiter (line 13) only changes display text, so the graph type plays no other part in `CreateEdges`.
- Numbers are unbounded integers. JavaScript doubles, large-number precision and `null` entries in `sumOfCoupling` are not modelled.
- String order compares characters, which stands in for UTF-16 code units.
- Hotspot.TrimSegments: lengths and `substring` offsets count characters (Unicode scalar values), not UTF-16 code units. The two differ when the character right after the prefix lies outside the Basic Multilingual Plane. For `prefix + "😀" + "x"` the code keeps the lone low surrogate of the emoji and returns `"\uDE00x"`, while the model returns `"x"` (`Hotspot.TrimAfterPrefix`). The same holds for `Hotspot.TrimDropsPrefixAndOne` and `Hotspot.TrimEmptyPrefix`.
- GraphAdapter.CreateEdges: requires a square matrix with one dimension name per row. In the code a shorter `dimensions` makes the tooltip of an emitted edge (lines 22-25) call `split` on `undefined` and throw; a ragged row reads `undefined`. Neither failure is modelled.
- GraphAdapter.SumRow, GraphAdapter.SumCol: require a square matrix. The code reads `undefined` from a ragged row, and that case is not modelled.
- GraphAdapter.CreateNodes: requires every per-dimension array to have one entry per dimension. Mismatched sizes are a malformed measurement and are stated as a precondition.
- The render library's element types (`EdgeDefinition`, node definitions with `classes: 'group'`) are modelled as plain records: `Edge` and `Node` with a `GroupNode`/`LeafNode` tag.
- Rows of the hotspot table have the four columns the detail table shows (`fileName`, `commits`, `complexity`, `score`). The full hotspot result type is not part of this model.
- The rest of the hotspot component is not modelled. That covers form controls, subscriptions, service loads, table data sources and `formatAggregated`, which relies on `lastSegments`, not part of this model. `this.selectedRow.module` is the parameter of `FormatHotspots`.
- The hotspot store, the application bootstrap component and the team-alignment chart adapter are not part of this model: reactive state and HTTP calls, framework wiring, and chart configuration with floating-point percentages.
