# kiara_plugin.playground — a verified Dafny model of its processing modules

`kiara_plugin.playground` is a set of kiara modules for network analysis and
for preparing a topic-modelling corpus. This project models what those
modules compute, and proves properties of it:

- **Centrality rankings** (`centrality_measures_module.py`). The degree,
  betweenness, eigenvector and closeness modules turn a node -> score map
  into a `Rank`/`Node`/`Score` table. They sort by score, assign competition
  ranks with `result_func` (tied scores share a rank, and the next rank skips
  past the tie), and sort again. The degree module also collapses the
  multigraph's parallel edges into a weighted digraph and attaches a
  `Weighted Degree Score`. Modules: `Sorting`, `Ranking`, `Graphs`,
  `Centrality`.
- **Corpus metadata** (`mariella/tm_dash.py` and its copy in
  `playground/mariella.py`):
  - the publication reference and the date are cut out of each file name
    with the two regular expressions, and the date is parsed;
  - the table is sorted by date;
  - the distinct publications are listed, in `mariella.py` with their
    counts;
  - `MapColumn` maps a column through `Series.replace`, and `AddColumn`
    appends a tokens column;
  - `VizDataQuery` renders an SQL query for one aggregation period.

  Modules: `FileNames`, `Dates`, `Frames`, `Columns`, `Corpus`, `VizQuery`.
- **Components** (`lena/components.py`). The network is split into its
  largest connected component and the rest, using the four SQL `DELETE`s on
  the nodes and edges tables, and the number of components is reported.
  Module: `Components`.
- **Modularity groups** (`lena/modularity.py`). Each node is labelled with
  the index of its community. Module: `Modularity`.
- **Cut points** (`caitlin/cutpoints_module.py`). Each node is flagged `Yes`
  or `No` according to whether it is an articulation point. Module:
  `CutPoints`.

The graph algorithms come from networkx: degree is modelled, and
betweenness, eigenvector, closeness, connected components, greedy
modularity communities and articulation points are inputs. The model states
exactly what the modules do with those results.

The pandas operations the modules use are modelled on a `Table` value:
`apply`, `unique`, `value_counts`, `replace`, `sort_values` and column
assignment. A `Frame` class holds a table that is updated in place the way
`df[name] = values` updates a DataFrame. The SQL-backed network store is a
`NetworkStore` class whose `DELETE` methods filter its node and edge lists.

Loops in the source are methods with loop invariants. Each is proved
against a specification function:

| method | source loop | specification function |
|---|---|---|
| `CompetitionRank` | `result_func` | `RunRanks` |
| `CollapseMultiEdges` | multi-edge collapse | `Arcs` / `ParallelWeight` |
| `ModularityGroups` | modularity loop | `Labels` |
| `CutFlags` | cut-point loop | `Flags` |

`Weighted Degree Score` is `graph.degree(node)` on the collapsed `DiGraph`:
the number of distinct in- and out-arcs, not the summed weights
(`Centrality.ParallelEdgesExample`). The collapse reads only the `weight`
attribute, defaulting to 1.0.

## Model

Source paths are relative to the repository root.

| member | source | states |
|---|---|---|
| Sorting.SortBy | src/kiara_plugin/playground/modules/caitlin/centrality_measures_module.py:85 | Python's `sorted`: the output is a permutation of the input (same length, same multiset) |
| Sorting.SortBySorted | src/kiara_plugin/playground/modules/caitlin/centrality_measures_module.py:85 | for any strict weak order the output of `sorted` is ordered by it |
| Sorting.SortByStable | src/kiara_plugin/playground/modules/caitlin/centrality_measures_module.py:85 | `sorted` is stable: the elements tied with any `x` appear in the output in their input order |
| Sorting.SortByIdentity | src/kiara_plugin/playground/modules/caitlin/centrality_measures_module.py:85 | sorting an already sorted list returns it unchanged |
| Ranking.GroupStart | src/kiara_plugin/playground/modules/caitlin/centrality_measures_module.py:64-73 | the start of item k's run of equal scores: at or before k, preceded by a different score, all scores from it to k equal |
| Ranking.CompetitionRank | src/kiara_plugin/playground/modules/caitlin/centrality_measures_module.py:64-73 | the `result_func` loop gives item k rank 1 + the start of its run of equal scores (loop invariant rank + count == items seen) |
| Ranking.RankTable | src/kiara_plugin/playground/modules/caitlin/centrality_measures_module.py:85-88 | a table exists iff there is at least one score; it is the ranked rows; an empty score map is the `DataFrame` column-count error |
| Ranking.GroupStartCountsHigher | src/kiara_plugin/playground/modules/caitlin/centrality_measures_module.py:64-73 | on scores sorted descending, the run start equals the number of items with a strictly higher score |
| Ranking.GroupStartOfEqualScores | src/kiara_plugin/playground/modules/caitlin/centrality_measures_module.py:64-73 | on descending scores two items have the same run start iff they have the same score |
| Ranking.SecondSortIsIdentity | src/kiara_plugin/playground/modules/caitlin/centrality_measures_module.py:85 | the second sort, by (score, rank) descending, leaves the ranked list as it is |
| Ranking.SortedScoresDescending | src/kiara_plugin/playground/modules/caitlin/centrality_measures_module.py:85 | the first sort, by score with `reverse=True`, yields non-increasing scores |
| Ranking.RankRowsAreSortedScores | src/kiara_plugin/playground/modules/caitlin/centrality_measures_module.py:85 | the table without ranks is the stable descending sort of the score items; row k's rank is its run start + 1 |
| Ranking.RankRowsPermuteScores | src/kiara_plugin/playground/modules/caitlin/centrality_measures_module.py:85-88 | one row per score item: same length and same multiset of (node, score) |
| Ranking.RankRowsDistinct | src/kiara_plugin/playground/modules/caitlin/centrality_measures_module.py:85-88 | distinct nodes in the score map give distinct nodes in the table |
| Ranking.RankRowsOrder | src/kiara_plugin/playground/modules/caitlin/centrality_measures_module.py:85 | rows are in non-increasing score order, and nodes with equal scores keep the order of the score map |
| Ranking.RankRowsAt | src/kiara_plugin/playground/modules/caitlin/centrality_measures_module.py:85-88 | row k holds the k-th item of the sorted scores with rank run start + 1 |
| Ranking.RankRowsLength | src/kiara_plugin/playground/modules/caitlin/centrality_measures_module.py:85-88 | the table has one row per score item |
| Ranking.RankRowsBounded | src/kiara_plugin/playground/modules/caitlin/centrality_measures_module.py:64-73 | row k's rank lies between 1 and k + 1 |
| Ranking.RankRowsSteps | src/kiara_plugin/playground/modules/caitlin/centrality_measures_module.py:64-73 | a row whose score differs from the previous row has rank k + 1; an equal score repeats the previous rank |
| Ranking.RankRowsCompetition | src/kiara_plugin/playground/modules/caitlin/centrality_measures_module.py:64-73 | competition ("1224") ranking: the first row has rank 1, ranks are bounded by position, new scores jump to position + 1, ties repeat |
| Ranking.RankRowsCountHigher | src/kiara_plugin/playground/modules/caitlin/centrality_measures_module.py:64-73 | a row's rank is 1 + the number of rows with a strictly higher score |
| Ranking.RankRowsTies | src/kiara_plugin/playground/modules/caitlin/centrality_measures_module.py:64-73 | two rows have the same rank iff they have the same score |
| Ranking.RankRowsNonDecreasing | src/kiara_plugin/playground/modules/caitlin/centrality_measures_module.py:64-73 | ranks never decrease down the table |
| Ranking.RankRowsOfSorted | src/kiara_plugin/playground/modules/caitlin/centrality_measures_module.py:85 | for score items already in descending order the rows keep that order |
| Ranking.TiedExample | src/kiara_plugin/playground/modules/caitlin/centrality_measures_module.py:64-73 | two tied top scores and a lower third are ranked 1, 1, 3 |
| Graphs.Degree | src/kiara_plugin/playground/modules/caitlin/centrality_measures_module.py:77 | `G.degree(node)` of an undirected graph: neighbours other than the node itself, plus 2 for a self-loop |
| Graphs.SetNodeAttributes | src/kiara_plugin/playground/modules/caitlin/centrality_measures_module.py:78 | `nx.set_node_attributes`: nodes in the value map get the attribute; other nodes, other attributes and the edges are unchanged |
| Centrality.CollapseMultiEdges | src/kiara_plugin/playground/modules/caitlin/centrality_measures_module.py:56-62 | the digraph has an arc for every ordered pair with an edge, weighted by the sum of the parallel edges' weights (1.0 without a weight); its nodes are the edge endpoints, each once |
| Centrality.WeightedDegrees | src/kiara_plugin/playground/modules/caitlin/centrality_measures_module.py:80-82 | each digraph node's degree is its number of distinct out-arcs plus in-arcs |
| Centrality.DegreeScores | src/kiara_plugin/playground/modules/caitlin/centrality_measures_module.py:75-77 | one score item per node of `G`, in `G`'s order, scored with its degree |
| Centrality.DegreeItems | src/kiara_plugin/playground/modules/caitlin/centrality_measures_module.py:75-77 | the degree map has one item per node |
| Centrality.ScoreValues | src/kiara_plugin/playground/modules/caitlin/centrality_measures_module.py:144 | every scored node is mapped to its score as an attribute, and nothing else is mapped |
| Centrality.DegreeValues | src/kiara_plugin/playground/modules/caitlin/centrality_measures_module.py:75-78 | the `Degree Score` values are exactly the nodes of `G`, each with its degree |
| Centrality.WeightedDegreeValues | src/kiara_plugin/playground/modules/caitlin/centrality_measures_module.py:80-83 | the `Weighted Degree Score` values are exactly the digraph's nodes, each with its degree |
| Centrality.DegreeItemsDistinct | src/kiara_plugin/playground/modules/caitlin/centrality_measures_module.py:75-77 | the degree map lists each node once |
| Centrality.DegreeRanking | src/kiara_plugin/playground/modules/caitlin/centrality_measures_module.py:45-92 | the degree module succeeds iff `G` has a node; the table ranks the degrees; every node gets `Degree Score`; every edge endpoint gets `Weighted Degree Score` = its arc count in the collapsed digraph; edge-less nodes get only the degree; every other attribute of every node is kept |
| Centrality.ScoreRanking | src/kiara_plugin/playground/modules/caitlin/centrality_measures_module.py:123-152 | the betweenness, eigenvector and closeness modules succeed iff `G` has a node; the table ranks the given scores; each node gets its score under the metric's attribute; nodes, edges and every other attribute are unchanged |
| Centrality.ArcsIgnoreWeights | src/kiara_plugin/playground/modules/caitlin/centrality_measures_module.py:80-83 | two edge lists with the same endpoints have the same arcs and weighted degrees whatever their weights |
| Centrality.EndpointsHaveDegree | src/kiara_plugin/playground/modules/caitlin/centrality_measures_module.py:80-83 | every node of the collapsed digraph has weighted degree at least 1 |
| Centrality.ParallelWeightDirected | src/kiara_plugin/playground/modules/caitlin/centrality_measures_module.py:56-62 | the collapse is directed: edges v->u add nothing to the weight of u->v |
| Centrality.ParallelEdgesExample | src/kiara_plugin/playground/modules/caitlin/centrality_measures_module.py:56-83 | parallel edges 1->2 of weights 2 and 3 collapse to one arc of weight 5.0, and both nodes have weighted degree 1 |
| Centrality.UnweightedParallelWeight | src/kiara_plugin/playground/modules/caitlin/centrality_measures_module.py:58 | without weight attributes an arc's collapsed weight is the number of parallel edges |
| FileNames.FindDate | src/kiara_plugin/playground/modules/mariella/tm_dash.py:56 | the leftmost position where `_DDDD-DD-DD_` matches, or none if it matches nowhere |
| FileNames.GetDate | src/kiara_plugin/playground/modules/mariella/tm_dash.py:55-59 | `get_date`: the first match's group, which has the date shape; otherwise the invalid-file-name error, and then no position matches |
| FileNames.RefEndUnique | src/kiara_plugin/playground/modules/mariella/tm_dash.py:49 | from a given start, `(\w+\d+)_\d{4}-\d{2}-\d{2}_` can only match with the group ending where the run of word characters ends, less five |
| FileNames.RefFrom | src/kiara_plugin/playground/modules/mariella/tm_dash.py:49 | the reference pattern's match from a start position, or none if it matches nowhere from there |
| FileNames.FindRef | src/kiara_plugin/playground/modules/mariella/tm_dash.py:49 | the leftmost start where the reference pattern matches, or none |
| FileNames.GetRef | src/kiara_plugin/playground/modules/mariella/tm_dash.py:48-52 | `get_ref`: the first match's group; otherwise the invalid-file-name error, and then the pattern matches nowhere |
| FileNames.GetRefShape | src/kiara_plugin/playground/modules/mariella/tm_dash.py:48-52 | the reference is word characters ending in a digit, and it is immediately followed by a `_date_` match |
| FileNames.ComposedGetDate | src/kiara_plugin/playground/modules/mariella/tm_dash.py:55-59 | `get_date` of `ref_date_rest` returns the date |
| FileNames.ComposedGetRef | src/kiara_plugin/playground/modules/mariella/tm_dash.py:48-52 | `get_ref` of `ref_date_rest` returns the reference |
| FileNames.ComposedNameRoundTrip | src/kiara_plugin/playground/modules/mariella/tm_dash.py:48-59 | a file name built from a reference and a date gives both back |
| Dates.ParseDate | src/kiara_plugin/playground/modules/mariella/tm_dash.py:65 | `pd.to_datetime` on a `YYYY-MM-DD` string: success gives a valid calendar date; anything else is the invalid-date error |
| Dates.FormatDate | src/kiara_plugin/playground/modules/mariella/tm_dash.py:65 | a valid date prints in the `YYYY-MM-DD` shape |
| Dates.ParseFormatDate | src/kiara_plugin/playground/modules/mariella/tm_dash.py:65 | parsing a printed date gives the date back |
| Dates.FormatParseDate | src/kiara_plugin/playground/modules/mariella/tm_dash.py:65 | printing a parsed date gives the text back |
| Dates.LeapDay | src/kiara_plugin/playground/modules/mariella/tm_dash.py:65 | 2000-02-29 parses; 1900-02-29 is rejected |
| Frames.Table.With | src/kiara_plugin/playground/modules/mariella/tm_dash.py:61 | `df[name] = values`: the new column is added or replaced; other columns are kept, or become blank when a zero-row frame grows |
| Frames.Table.Take | src/kiara_plugin/playground/modules/mariella/tm_dash.py:66 | reordering rows: every column's cell i is the old cell at the i-th position of the order |
| Frames.Frame.constructor | src/kiara_plugin/playground/modules/mariella/tm_dash.py:45 | `to_pandas()`: a frame holding the table |
| Frames.Frame.Get | src/kiara_plugin/playground/modules/mariella/tm_dash.py:63 | `df[column]`: the column if it exists, else the missing-column error |
| Frames.Frame.Assign | src/kiara_plugin/playground/modules/mariella/tm_dash.py:192 | column assignment in place: succeeds iff the lengths agree or the frame has no rows; on failure the frame is unchanged |
| Frames.DateOrderIsPermutation | src/kiara_plugin/playground/modules/mariella/tm_dash.py:66 | `sort_values(by='date')` reorders rows by a permutation of the row positions |
| Frames.DateOrderSorts | src/kiara_plugin/playground/modules/mariella/tm_dash.py:66 | after the reorder the dates are non-decreasing |
| Frames.DateOrderStable | src/kiara_plugin/playground/modules/mariella/tm_dash.py:66 | rows with equal dates keep their original relative order |
| Columns.Apply | src/kiara_plugin/playground/modules/mariella/tm_dash.py:61 | `Series.apply`: succeeds iff the function succeeds on every cell, with the cell-wise results; otherwise the error of the first failing cell |
| Columns.Unique | src/kiara_plugin/playground/modules/mariella/tm_dash.py:68 | `Series.unique`: each value of the column exactly once |
| Columns.UniqueFirstAppearance | src/kiara_plugin/playground/modules/mariella/tm_dash.py:68 | the unique values come in order of first appearance |
| Columns.CountValues | src/kiara_plugin/playground/playground/mariella.py:66 | `value_counts`: as many counts as values |
| Columns.SumCountsUnique | src/kiara_plugin/playground/playground/mariella.py:66 | the counts of the distinct values add up to the number of rows |
| Columns.CountValuesPositive | src/kiara_plugin/playground/playground/mariella.py:66 | every listed value occurs at least once |
| Columns.CountValuesTotal | src/kiara_plugin/playground/playground/mariella.py:66 | the counts add up to the column's length |
| Columns.CountValuesNonIncreasing | src/kiara_plugin/playground/playground/mariella.py:66 | counts are in non-increasing order |
| Columns.CountValuesSound | src/kiara_plugin/playground/playground/mariella.py:66 | the listed values are the distinct values, with positive, non-increasing counts summing to the length |
| Columns.CountValuesTies | src/kiara_plugin/playground/playground/mariella.py:66 | values with equal counts stay in order of first appearance |
| Columns.ReplacePairsLastMatch | src/kiara_plugin/playground/modules/mariella/tm_dash.py:120 | `replace(list, list)` applies each pair's mask, taken on the original values, in turn; the cell gets the value paired with the last matching key, or stays unchanged |
| Columns.Mapped | src/kiara_plugin/playground/modules/mariella/tm_dash.py:120 | the replaced column is as long as the source column, cell by cell |
| Columns.MappedCells | src/kiara_plugin/playground/modules/mariella/tm_dash.py:120 | a cell equal to key k, with no later equal key, becomes value k |
| Columns.MappedUnmatched | src/kiara_plugin/playground/modules/mariella/tm_dash.py:120 | a cell equal to no key is kept |
| Corpus.Annotated | src/kiara_plugin/playground/modules/mariella/tm_dash.py:61-65 | on success the table is well-formed, has the same number of rows, and has `date` and `publication` columns |
| Corpus.Annotate | src/kiara_plugin/playground/modules/mariella/tm_dash.py:45-65 | the in-place column assignments on the frame compute the annotated table |
| Corpus.FileNameMetadata | src/kiara_plugin/playground/modules/mariella/tm_dash.py:40-73 | the module's outputs are the date-sorted annotated table and the unique publications |
| Corpus.FileNameMetadataCounted | src/kiara_plugin/playground/playground/mariella.py:58-70 | the same outputs plus the `value_counts` of the publications, with the same errors |
| Corpus.AnnotatedDates | src/kiara_plugin/playground/modules/mariella/tm_dash.py:61-65 | each row's `date` is the parsed date cut from its `file_name` |
| Corpus.AnnotatedRefs | src/kiara_plugin/playground/modules/mariella/tm_dash.py:63 | each row's `publication` is the reference cut from the chosen column |
| Corpus.AnnotatedKeeps | src/kiara_plugin/playground/modules/mariella/tm_dash.py:61-65 | the other columns are carried through unchanged |
| Corpus.MetadataSorted | src/kiara_plugin/playground/modules/mariella/tm_dash.py:66-68 | the output is a row permutation of the annotated table with non-decreasing dates; the publications are distinct, exactly those of the table, in first-appearance order |
| Corpus.MetadataNeedsFileNames | src/kiara_plugin/playground/modules/mariella/tm_dash.py:61 | without a `file_name` column the module fails with the missing-column error |
| Corpus.MetadataRejectsName | src/kiara_plugin/playground/modules/mariella/tm_dash.py:55-61 | the first file name with no date fails the whole module with its invalid-name error |
| Corpus.RefsFromDateColumnFail | src/kiara_plugin/playground/modules/mariella/tm_dash.py:61-63 | taking references from `date` fails on a non-empty table: the column then holds the date text, which the reference pattern never matches |
| Corpus.PublicationCounts | src/kiara_plugin/playground/playground/mariella.py:66 | one count per unique publication, each at least 1, non-increasing, summing to the number of rows |
| Corpus.MapColumn | src/kiara_plugin/playground/modules/mariella/tm_dash.py:111-123 | the `MapColumn` module, through the frame operations |
| Corpus.MapColumnResult | src/kiara_plugin/playground/modules/mariella/tm_dash.py:120 | on success the mapping is two equal-length lists and the column exists; the output column maps each cell to the value of its last matching key; other columns kept |
| Corpus.MapColumnSequential | src/kiara_plugin/playground/modules/mariella/tm_dash.py:120 | each output cell is what applying the replacement pairs one after another gives |
| Corpus.AddColumn | src/kiara_plugin/playground/modules/mariella/tm_dash.py:184-194 | the tokens column is added iff its length matches the table or the table has no rows, otherwise the length-mismatch error; the other columns are kept, or become blank when a zero-row table grows |
| VizQuery.Render | src/kiara_plugin/playground/modules/mariella/tm_dash.py:228 | an f-string's length is its literal text plus one copy of the column name per placeholder |
| VizQuery.Template | src/kiara_plugin/playground/modules/mariella/tm_dash.py:227-234 | a template exists exactly for `month`, `year` and `day` |
| VizQuery.VizDataQuery | src/kiara_plugin/playground/modules/mariella/tm_dash.py:227-236 | a query iff the period is `month`, `year` or `day`; any other period is the unbound-query error |
| VizQuery.TemplateShape | src/kiara_plugin/playground/modules/mariella/tm_dash.py:227-234 | each query starts with literal text followed by the column name, and holds the name three times |
| VizQuery.RenderRoundTrip | src/kiara_plugin/playground/modules/mariella/tm_dash.py:228 | the column name can be read back from a query rendered from such a template |
| VizQuery.QueryRoundTrip | src/kiara_plugin/playground/modules/mariella/tm_dash.py:227-234 | the column name can be read back from any query the module produces |
| VizQuery.QueryInjective | src/kiara_plugin/playground/modules/mariella/tm_dash.py:227-234 | different column names give different queries |
| VizQuery.QueryLength | src/kiara_plugin/playground/modules/mariella/tm_dash.py:227-234 | the query is the literal text plus three unescaped copies of the column name |
| Components.FirstLargest | src/kiara_plugin/playground/modules/lena/components.py:109 | `max(components, key=len)`: a component of maximal size, the first one of that size |
| Components.NodesWhere | src/kiara_plugin/playground/modules/lena/components.py:116 | the node rows kept by `id IN` / `id NOT IN` the chosen set |
| Components.EdgesWhere | src/kiara_plugin/playground/modules/lena/components.py:123 | the edge rows kept by the edge `DELETE`s: those touching the set, or those not touching it |
| Components.NetworkStore.constructor | src/kiara_plugin/playground/modules/lena/components.py:111 | `clone()`: a store holding the network |
| Components.NetworkStore.DeleteNodesNotIn | src/kiara_plugin/playground/modules/lena/components.py:116-120 | `DELETE FROM nodes WHERE id NOT IN :nodes` keeps exactly the nodes in the set; edges untouched |
| Components.NetworkStore.DeleteEdgesAway | src/kiara_plugin/playground/modules/lena/components.py:122-129 | `DELETE FROM edges WHERE source NOT IN … AND target NOT IN …` keeps exactly the edges touching the set |
| Components.NetworkStore.DeleteNodesIn | src/kiara_plugin/playground/modules/lena/components.py:141-145 | `DELETE FROM nodes WHERE id IN :nodes` keeps exactly the nodes outside the set |
| Components.NetworkStore.DeleteEdgesTouching | src/kiara_plugin/playground/modules/lena/components.py:147-153 | `DELETE FROM edges WHERE source IN … OR target IN …` keeps exactly the edges not touching the set |
| Components.ExtractLargestComponent | src/kiara_plugin/playground/modules/lena/components.py:97-165 | the method's clone-and-delete steps compute the split function |
| Components.SplitConnected | src/kiara_plugin/playground/modules/lena/components.py:100-107 | a single component returns the network itself, count 1, connected, no other components |
| Components.SplitEmpty | src/kiara_plugin/playground/modules/lena/components.py:109 | an empty network has no components, and `max` of nothing fails |
| Components.SplitCounts | src/kiara_plugin/playground/modules/lena/components.py:161-165 | the count is the number of components; connected iff it is 1; other components exist iff it is not 1 |
| Components.NodesPartition | src/kiara_plugin/playground/modules/lena/components.py:116-145 | the two node `DELETE`s split the node rows between them, none lost and none duplicated |
| Components.EdgesPartition | src/kiara_plugin/playground/modules/lena/components.py:122-153 | the two edge `DELETE`s split the edge rows between them |
| Components.SplitNodes | src/kiara_plugin/playground/modules/lena/components.py:109-145 | the largest component holds exactly the chosen component's nodes, the rest holds all others, disjointly |
| Components.SplitEdges | src/kiara_plugin/playground/modules/lena/components.py:122-153 | for a true component cover, the largest component keeps the edges inside it and the rest keeps the edges outside it, each edge exactly once |
| Components.SplitWellFormed | src/kiara_plugin/playground/modules/lena/components.py:111-159 | every edge of either output joins two nodes of that output |
| Modularity.Labels | src/kiara_plugin/playground/modules/lena/modularity.py:52-55 | a node is labelled iff some community holds it, and every label is a community index |
| Modularity.ModularityGroups | src/kiara_plugin/playground/modules/lena/modularity.py:52-55 | the nested loop builds the label map, whatever order it visits a community's members in |
| Modularity.LabelIsLast | src/kiara_plugin/playground/modules/lena/modularity.py:55 | a node's label is the last community that holds it |
| Modularity.PartitionLabel | src/kiara_plugin/playground/modules/lena/modularity.py:52-55 | for disjoint communities every member of community i is labelled i |
| Modularity.SameLabel | src/kiara_plugin/playground/modules/lena/modularity.py:52-55 | for disjoint communities two nodes share a label iff they share a community |
| Modularity.OverlapExample | src/kiara_plugin/playground/modules/lena/modularity.py:55 | a node in two communities is labelled with the later one |
| Modularity.ModularityCommunity | src/kiara_plugin/playground/modules/lena/modularity.py:50-57 | each labelled node gets `Modularity_Group` = its label; unlabelled nodes, other attributes and the edges are unchanged |
| CutPoints.Flags | src/kiara_plugin/playground/modules/caitlin/cutpoints_module.py:52-57 | the flag map has exactly the nodes of `G` as keys |
| CutPoints.CutFlags | src/kiara_plugin/playground/modules/caitlin/cutpoints_module.py:52-57 | the loop flags a node `Yes` iff it is a cut point and `No` iff it is not |
| CutPoints.YesAreCutPoints | src/kiara_plugin/playground/modules/caitlin/cutpoints_module.py:50-57 | the `Yes` nodes are exactly the cut points, so there are as many of them as distinct cut points |
| CutPoints.CutPointsList | src/kiara_plugin/playground/modules/caitlin/cutpoints_module.py:50-63 | the module returns the cut-point list as it is, and `G` with every node's `Cut Point` flag set and nothing else changed |

## Left out

- The networkx algorithms are inputs, not modelled: betweenness,
  eigenvector and closeness centrality, `connected_components`,
  `greedy_modularity_communities` and `articulation_points`. The definition
  of a cut point in `cutpoints_module.py:13-14` is therefore not checked
  against the list supplied. `IsComponentCover` states only that the
  components partition the nodes and that no edge crosses them, not that
  they are connected.
- Scores are `real`: floating-point rounding, NaN and the order of float
  comparisons are not modelled. The `previous = None` start of
  `result_func` is modelled as "the first item starts a run".
- `sorted` and `sort_values` are modelled as stable sorts. pandas'
  default `sort_values` uses quicksort, which does not promise stability,
  so `DateOrderStable` states the stable choice rather than a pandas
  guarantee.
- Columns.CountValues counts every cell, missing ones included, whereas
  pandas' `value_counts` drops NaN by default. Only the `publication`
  column, all text, is counted, so no missing cell reaches it.
- Columns.CountValues: the order pandas gives to values with equal counts
  is not documented; the model keeps first-appearance order
  (`CountValuesTies`).
- Dates.ParseDate: only the `YYYY-MM-DD` text that `get_date` produces is
  parsed, for years 0001-9999. The other formats `pd.to_datetime` accepts,
  and the `Timestamp` range limits, are not modelled; the date becomes a
  value with no time or time zone.
- `\w` and `\d` are ASCII only: Unicode word characters and digits are not
  modelled.
- A cell whose `apply` target is not text fails with a `NotText` error; the
  Python `TypeError` it stands for is not modelled in more detail.
- The DataFrame index, dtypes and the `TableSample` conversion are not
  modelled; a table is a map from column names to equal-length columns.
- The kiara module framework, schemas, `inputs`/`outputs` plumbing, the SQL
  engine, `clone` beyond copying the data, `_unlock_db`/`_lock_db`/
  `_invalidate`, and `NetworkData.create_from_networkx_graph` are not part of
  this model. Graph attributes are a map per node.
- `VizDataQuery` is modelled as text; the SQL it produces is not executed
  or parsed. VizQuery.RenderRoundTrip requires a template of three holes
  that starts with literal text followed by a hole, which all three
  templates are (`TemplateShape`).
- The order in which `for name in c` visits a community's members is left
  open. The resulting map does not depend on it.
- Corpus.AnnotatedRefs requires the chosen column not to be `date`. That
  case always fails, once the table has a row, and `RefsFromDateColumnFail`
  states it.
- Graphs.Degree counts a self-loop twice, as networkx does, but
  multi-edges of `G` are not modelled: `G` is built as a simple graph.
- The other modules of the repository (the Dash pages, onboarding,
  pipelines and the remaining playground modules) are not part of this
  model.
