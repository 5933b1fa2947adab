# perfection: perfect hashing, modelled in Dafny

The model covers the four parts of the perfection package (Python, by Eddie
Antonio Santos) that build perfect hash functions:

- **`ForestGraph`** (`perfection/forest.py`) is an undirected forest that
  grows one edge at a time. `add_edge` refuses a loop and any edge whose ends
  are already in one component. Components are shared Python set objects,
  and on every accepted edge the smaller one is merged into the bigger one.
  `forest.dfy` holds it as a class. A ghost identity per set object stands in
  for Python's `is`. Its invariant ties the components to connectivity by the
  accepted edges, and those edges form an acyclic graph. `graphs.dfy` holds
  the graph vocabulary: canonical edges, paths, connectivity and acyclicity.
- **The Czech, Havas and Majewski hash builder** (`perfection/czech.py`).
  - The words are deduplicated.
  - Each word becomes the edge between its two mini-hash values under two
    random permutation tables.
  - Trials repeat until the edges form a forest.
  - A depth-first walk then assigns each vertex a value `g` so that the two
    values on a word's edge add up to the word's index.

  `czech.dfy` models the builder as a class whose methods fill its fields in
  the source's order. The headline result is `HashesInOrder`: `czech_hash`
  sends the i-th distinct word to i.
- **The fixed-slot dictionary** of `create_dict_subclass`
  (`perfection/utils.py`) is an array of slots, one per key, indexed by the
  hash. `slot_dict.dfy` specifies the slots as a sequence, keeps them in a
  class over an array, and proves the make_dict doctest.
- **The first-fit-decreasing row-displacement hash** (`mphf.py`).
  - Keys are laid out in a t-by-t grid.
  - Rows are rotated in place, most populous first, onto free columns, and
    the displacement of each row is recorded.
  - The grid is flattened by taking the topmost item of every column.

  `mphf.dfy` models rows as arrays rotated in place and the matrix as a
  sequence of distinct row arrays. Every method is proved to compute a
  function on sequences, and the properties are proved about those functions.

Python exceptions become values of `Result`/`Option` datatypes
(`wrappers.dfy`). Randomness becomes input:

- The values `random.shuffle` draws are given as a sequence, and the model
  runs the Fisher-Yates walk over them.
- The retry loop receives the draws of every trial it may make.

`mphf.py` is Python 2 code, so its `/` on integers is floor division. The
model writes that out (`PyIndex`, `SliceBound`) wherever negative values can
occur.

The source code of `mphf.py` has three defects. The model keeps each one as
written and proves the behaviour that results:

- `check_columns_okay` shifts every item by the candidate column (lines
  219-223), while `place_first_at` moves the row's first item to that column
  (lines 124-130). The two agree only when the row's first item is at index
  0 (`CheckMatchesPlacementFromZero`). Otherwise `check_columns_okay` can do either of
  two things:
  - approve a column whose placement then collides, so that
    `columns_unfilled.remove` raises ValueError
    (`CheckApprovesCollidingPlacement`);
  - refuse every column although a placement fits
    (`CheckMissesFittingPlacement`).
- When `max(items) + offset` is a positive perfect square `t * t`, the
  largest key falls in row `t`, one past the grid, and make_hash raises
  IndexError (`MakeHashIndexError`, `SquareTopRaisesIndexError`).
- With `minimize=False`, `offset` is never bound, so every run that reaches
  the `return` raises NameError (`MakeHashNameError`,
  `UnminimizedRaisesNameError`). Only `minimize=True` ever returns, and then
  the result is a minimal perfect hash of the keys (`MakeHashIsPerfect`).

`czech.py` calls `self.graph.neighbours(vertex)` (line 179), but the
`ForestGraph` of `perfection/forest.py` has no such method.
`ForestGraph.Neighbours` supplies it: the vertices joined to the given one by
an edge.

## Model

| member | source | states |
|---|---|---|
| Graphs.CanonicalOrder | perfection/forest.py:105-108 | the result is the edge itself or its reverse, smaller endpoint first |
| Graphs.CanonicalOrderSymmetricIdempotent | perfection/forest.py:105-108 | (u, v) and (v, u) have the same canonical order, and canonical order is idempotent |
| Graphs.CanonicalOrderSameEndpoints | perfection/forest.py:105-108 | two edges with the same canonical order join the same two endpoints |
| Graphs.ConnectedFromIsolated | perfection/forest.py:97-100 | a vertex that no edge touches is connected to itself only |
| Graphs.AddEdgeKeepsAcyclic | perfection/forest.py:72-85 | an edge between two vertices that are not connected is new and keeps the edge set acyclic |
| Graphs.StackNeighbourIsTop | perfection/czech.py:178-191 | in a forest, a vertex off the walk's path that is adjacent to its top vertex is adjacent to no other vertex of that path |
| Forest.PathStaysInComponent | perfection/forest.py:72-77 | every walk along accepted edges stays inside one component |
| Forest.ConnectedIffSameComponent | perfection/forest.py:72-77 | two distinct vertices are connected by the accepted edges exactly when both are graph vertices sharing one component set, which is what the `is` comparison decides |
| Forest.RejectionIsConnectedness | perfection/forest.py:72-79 | add_edge's two rejection conditions (same component, or a loop) hold exactly when the endpoints are already connected |
| Forest.MergeKeepsInvariant | perfection/forest.py:85-92 | adding the edge and merging the smaller component set into the bigger one keeps the forest invariant |
| Forest.ComponentsDisjoint | perfection/forest.py:51-54 | two distinct component set objects share no vertex |
| Forest.MergeKeepsWellFormed | perfection/forest.py:88-92 | after the merge loop every vertex still belongs to the set it maps to, and each live set contains exactly the vertices that map to it |
| Forest.MergeKeepsEdgesWithin | perfection/forest.py:85-92 | after the merge, both ends of every edge (the new one included) map to one component |
| Forest.MergeKeepsConnected | perfection/forest.py:85-92 | after the merge, every component set is connected by the accepted edges |
| Forest.MergedPairConnected | perfection/forest.py:85-92 | any two vertices of the merged set are connected once the new edge is added |
| Forest.MergedComponents | perfection/forest.py:88-92 | after the merge, u and v map to the bigger set, which holds the union of the two old sets, and every other vertex's set is unchanged |
| Forest.AddVertexKeepsInvariant | perfection/forest.py:97-100 | a new vertex with the fresh component {vertex} keeps the forest invariant |
| Forest.AddVertexKeepsComponentSets | perfection/forest.py:97-100 | add_vertex changes no vertex's component contents |
| Forest.AddVertexKeepsWellFormed | perfection/forest.py:97-100 | the singleton component of a new vertex keeps the component sets well formed |
| Forest.AddVertexKeepsConnected | perfection/forest.py:97-100 | a new singleton component is connected |
| Forest.ForestGraph.constructor | perfection/forest.py:48-54 | a new graph has no vertices, no edges and no components, and satisfies the invariant |
| Forest.ForestGraph.ValidIsForest | perfection/forest.py:16-18 | the edges of a valid graph are canonical, acyclic, and join vertices of the graph; each live set object is a non-empty component, and \|edges\| = \|vertices\| - #components |
| Forest.ForestGraph.Neighbours | perfection/czech.py:179 | the neighbours of x are exactly the vertices joined to x by an edge |
| Forest.ForestGraph.SortComponents | perfection/forest.py:94-95 | the two component sets, smaller first; on equal sizes u's set comes first, as Python's stable sort keeps it |
| Forest.ForestGraph.AddVertex | perfection/forest.py:97-100 | an existing vertex changes nothing; a new one is added with a fresh singleton set; no component's contents change |
| Forest.ForestGraph.AddEdge | perfection/forest.py:61-92 | raises exactly when the endpoints are connected: "would form a cycle" when both exist in one component, "cannot add loop" for (v, v) with v new; a rejection changes nothing; acceptance adds both vertices and the canonical edge, merges the two components into the bigger set, and leaves every other component as it was |
| Forest.ForestGraph.AddEdgeNew | perfection/forest.py:81-92 | registers both vertices and the new canonical edge, and merges their components |
| Forest.ForestGraph.JoinComponents | perfection/forest.py:85-92 | adds the edge between two components and keeps the bigger set; ties keep v's set, as sorted(..., key=len) gives it |
| Forest.ForestGraph.MergeComponents | perfection/forest.py:89-92 | the merge loop: every vertex of the smaller set points to the bigger set, which gains them, and the smaller set is dropped |
| Forest.NewForestGraph | perfection/forest.py:48-59 | ForestGraph(edges=es) succeeds exactly when no edge joins two vertices already connected by the edges before it; the graph then holds exactly the canonical edges and the endpoints of es |
| Forest.AcceptsPrefix | perfection/forest.py:58-59 | a list the constructor accepts has every prefix accepted |
| Forest.EdgeSetOfContains | perfection/forest.py:58-59 | every listed edge is in the edge set in canonical order, with both its ends among the vertices |
| Forest.EdgeSetOfMembers | perfection/forest.py:58-59 | every member of the edge set comes from a listed edge |
| Forest.EndpointsOfMembers | perfection/forest.py:58-59 | every vertex is an endpoint of a listed edge |
| Forest.AcceptedEdgesDistinct | perfection/forest.py:72-79 | an accepted edge list has no loop and no two edges that join the same pair of vertices |
| Forest.AcceptedIsForest | perfection/forest.py:58-59 | the edge set of an accepted list is canonical and acyclic |
| Forest.DoctestEdgesAccepted | perfection/forest.py:20 | the doctest's edges (1, 2), (2, 3) are accepted |
| Forest.DoctestStart | perfection/forest.py:20 | ForestGraph(edges=[(1, 2), (2, 3)]) has vertices {1, 2, 3} and edges {(1, 2), (2, 3)} |
| Forest.DoctestPath | perfection/forest.py:21 | graph += (3, 4) is accepted |
| Forest.DoctestGraph | perfection/forest.py:22-25 | graph += (4, 2) then raises "would form a cycle" |
| Forest.ForestGraphDoctest | perfection/forest.py:20-33 | the class doctest: the cycle and the loop are refused, 4 is a vertex afterwards and 5 is not |
| Czech.DedupFromContents | perfection/czech.py:207-212 | the filter keeps each value not seen before, once, and nothing else |
| Czech.OrderedDeduplicate | perfection/czech.py:194-212 | the result holds every value of the input, each once, and nothing else |
| Czech.FirstIndex | perfection/czech.py:194-212 | the first position of a value in the sequence |
| Czech.OrderedDeduplicateKeepsFirstOccurrenceOrder | perfection/czech.py:194-212 | values appear in the order of their first occurrences in the input |
| Czech.OrderedDeduplicateExample | perfection/czech.py:200-201 | ordered_deduplicate([1, 2, 3, 1, 32, 1, 2]) == (1, 2, 3, 32) |
| Czech.OrderedDeduplicateOfDistinct | perfection/czech.py:194-212 | a sequence without repeats is its own deduplication |
| Czech.WeightedSumTruncates | perfection/czech.py:159 | zip stops at the shorter of table and word |
| Czech.WeightedSumNonNegative | perfection/czech.py:159 | a table of non-negative weights gives a non-negative sum |
| Czech.MiniHash | perfection/czech.py:158-159 | the mini-hash of a word lies in [0, n); PickableHash's copy at lines 263-264 is the same function |
| Czech.ShuffleStepsPermutes | perfection/czech.py:119 | every step of the shuffle only reorders the list |
| Czech.ShuffledIsPermutationOfRange | perfection/czech.py:114-120 | generate_random_table returns n values, each value of [0, n) exactly once |
| Czech.WordEdges | perfection/czech.py:132 | one edge per word |
| Czech.AssociationsOfKeys | perfection/czech.py:140-144 | the associations' keys are exactly the canonical edges of the words seen |
| Czech.AssociationsOfValues | perfection/czech.py:140-144 | when no two edges coincide, each canonical edge maps to its own (index, word) |
| Czech.AssociationsLabelEdges | perfection/czech.py:137-144 | for edges the forest accepts, the associations' keys are exactly the graph's edges, and each maps to its word and index, with nothing overwritten |
| Czech.AssignNeighbourKeeps | perfection/czech.py:184-191 | setting g[w] = num - g[v] for an unassigned neighbour w keeps every edge whose ends are both assigned summing to its word's index |
| Czech.PushKeepsSatisfied | perfection/czech.py:184-190 | the value given to w satisfies w's edge to v, and w has no other assigned neighbour |
| Czech.RootKeeps | perfection/czech.py:172-176 | giving an unreached vertex the value 0 keeps the walk's invariant |
| Czech.PopStack | perfection/czech.py:178-191 | once every neighbour of v is assigned, the call for v returns with the invariant kept |
| Czech.WalkDone | perfection/czech.py:163-176 | once every vertex is reached, exactly the graph's vertices are assigned and every edge is satisfied |
| Czech.Associate | perfection/czech.py:140-144 | the loop builds the associations dict, a later word overwriting an equal key |
| Czech.MapWords | perfection/czech.py:132-144 | the edges are accepted exactly when they form a forest, and the graph and associations are then those of the words |
| Czech.FirstTrialFromFound | perfection/czech.py:101-109 | the trial the search finds gives a forest, and no earlier trial does |
| Czech.FirstTrialFromNone | perfection/czech.py:101-112 | when the search finds nothing, no remaining trial gives a forest |
| Czech.FirstTrialIsFirstAccepted | perfection/czech.py:100-112 | the retry loop succeeds exactly when one of the m * m trials gives a forest, and keeps the first such trial |
| Czech.MappingReady | perfection/czech.py:132-144 | an accepted mapping's edges are canonical and acyclic, join its vertices, each carry a word, and every vertex is in [0, n) |
| Czech.SolvedEdgeSum | perfection/czech.py:186-190 | once g solves the mapping, the two g values of word i's edge are assigned and add up to i |
| Czech.CzechHashOfAssigned | perfection/czech.py:78-81 | czech_hash of a word is g[f1(word)] + g[f2(word)] when both are assigned |
| Czech.SolvedHashesWords | perfection/czech.py:78-81 | once g solves the mapping, czech_hash sends the i-th word to i |
| Czech.CzechHashBuilder.constructor | perfection/czech.py:37-42 | the words are deduplicated and indices is range(len(words[0])) |
| Czech.CzechHashBuilder.GenerateRandomTable | perfection/czech.py:114-120 | the table is list(range(n)) shuffled by the given draws |
| Czech.CzechHashBuilder.GenerateOrFail | perfection/czech.py:122-148 | raises exactly when the trial's edges do not form a forest, leaving the stored state as it was; otherwise stores the trial's tables, graph and associations |
| Czech.CzechHashBuilder.GenerateAcyclicGraph | perfection/czech.py:87-112 | n = 3 * m; keeps the first of the m * m trials that gives a forest, with trials_taken its number plus one; raises RuntimeError when none does |
| Czech.CzechHashBuilder.AssignVertex | perfection/czech.py:178-191 | the walk from a vertex assigns all of its reachable unassigned vertices, keeps earlier values, and keeps every edge satisfied |
| Czech.CzechHashBuilder.VisitNeighbour | perfection/czech.py:180-191 | an unassigned neighbour gets num - g[vertex] and the walk goes on from it; an assigned one is skipped |
| Czech.CzechHashBuilder.PlantRoot | perfection/czech.py:169-176 | an unreached vertex becomes a root with value 0 and the walk goes from it |
| Czech.CzechHashBuilder.SetSlot | perfection/czech.py:175 | g[x] = value changes that slot only |
| Czech.CzechHashBuilder.Assign | perfection/czech.py:163-176 | g gets n + 1 slots, and afterwards exactly the graph's vertices are assigned, with every edge's two values adding up to its word's index |
| Czech.CzechHashBuilder.AssignAll | perfection/czech.py:169-176 | the loop over the vertices solves the mapping |
| Czech.CzechHashBuilder.AssignStored | perfection/czech.py:163-191 | after an accepted trial, the hash function sends every word to its index |
| Czech.NewCzechHashBuilder | perfection/czech.py:37-51 | empty input raises IndexError; otherwise success exactly when some trial gives a forest, else RuntimeError; on success n = 3m, g has n + 1 slots, 1 <= trials_taken <= m * m, the kept trial is the first that works, and czech_hash sends the i-th distinct word to i |
| Czech.MakeHash | perfection/czech.py:236-249 | the same outcomes; the hash function (and make_pickable_hash's PickableHash at lines 252-284) sends the i-th distinct word to i |
| Czech.HashParameters | perfection/czech.py:217-233 | the same outcomes; t1 and t2 have 3m entries, g has 3m + 1, and indices is range(len(words[0])) |
| Czech.DaysDeduplicated | perfection/czech.py:221 | the seven day names are distinct |
| Czech.HashParametersDaysExample | perfection/czech.py:221-227 | hash_parameters on the seven days, whatever the shuffles draw: a result has len(t1) == len(t2) == 21 and len(g) == 22, and the only failure is RuntimeError after 49 trials |
| Czech.MakeHashDaysExample | perfection/czech.py:241-245 | any hash of the seven days in order sends 'fri' to 5 and 'sun' to 0 |
| Czech.GuacalaDeduplicated | perfection/czech.py:29-31 | deduplicating 'guacala' gives g, u, a, c, l |
| Czech.GuacalaExample | perfection/czech.py:29-34 | the class doctest: 'l', 'a', 'c', 'u', 'g' hash to 4, 2, 3, 1, 0 |
| SlotDict.IndexOrKeyError | perfection/utils.py:21-26 | the key's slot index when slots[hash(key)] == key, otherwise KeyError(key) |
| SlotDict.LookupIsContents | perfection/utils.py:35-39 | getitem returns the value held for the key, and raises KeyError(key) for a key not held, an empty slot included |
| SlotDict.ContentsMembership | perfection/utils.py:35-39 | a key is held exactly when it owns its slot and the slot is filled |
| SlotDict.StoreUpdatesContents | perfection/utils.py:41-43 | setitem maps the key to the value and changes no other key |
| SlotDict.LookupAfterStore | perfection/utils.py:35-43 | after setitem(key, value), getitem(key) == value, and every other key reads as before |
| SlotDict.EraseUpdatesContents | perfection/utils.py:45-49 | delitem removes exactly that key |
| SlotDict.FilledMembers | perfection/utils.py:51-52 | the listed pairs are exactly those of the filled slots |
| SlotDict.FilledInSlotOrder | perfection/utils.py:51-52 | the listed keys come in increasing slot order |
| SlotDict.KeysOfIsContents | perfection/utils.py:51-52 | iteration yields every key held, once, in slot order, not in insertion order |
| SlotDict.LenIsSize | perfection/utils.py:54-56 | len counts the keys held |
| SlotDict.SlotDictionary.constructor | perfection/utils.py:28-30 | hash_length empty slots, holding nothing |
| SlotDict.SlotDictionary.GetItem | perfection/utils.py:35-39 | the value held for the key, otherwise KeyError(key) |
| SlotDict.SlotDictionary.SetItem | perfection/utils.py:41-43 | a key owning its slot has (key, value) written there and maps to value; any other key raises KeyError(key) and changes nothing |
| SlotDict.SlotDictionary.DelItem | perfection/utils.py:45-49 | succeeds exactly on a key held, emptying its slot; otherwise KeyError(key) and nothing changes |
| SlotDict.SlotDictionary.Iter | perfection/utils.py:51-52 | the keys held, each once, in slot order |
| SlotDict.SlotDictionary.Len | perfection/utils.py:54-56 | the number of keys held |
| SlotDict.SlotDictionary.Items | perfection/utils.py:58-60 | the pairs the repr lists are exactly the mapping's key-value pairs, in increasing slot order |
| SlotDict.ItemsAreContents | perfection/utils.py:58-60 | the filled slots' pairs are exactly the mapping's key-value pairs |
| SlotDict.MonthHashFits | perfection/czech.py:298-299 | the doctest's stand-in hash sends the i-th month to i |
| SlotDict.AfterSetsFilled | perfection/czech.py:300-303 | after the doctest's four assignments, the repr lists feb: None, may: 'hello', jul: False, dec: 21, in month order, with the stored None listed |
| SlotDict.AfterDeleteFilled | perfection/czech.py:304-310 | after del d['may'], three slots stay filled |
| SlotDict.MakeDictExample | perfection/czech.py:298-310 | the make_dict doctest: the repr's pairs, KeyError('apr') on del d['apr'], and len(d) == 3 |
| Mphf.PyIndex | mphf.py:31-33 | the position a Python index denotes, when the index is in range |
| Mphf.SliceBound | mphf.py:144-145 | the clamped cut point of row[:d] and row[d:] |
| Mphf.Rotated | mphf.py:144-146 | row[d:] + row[:d] has the row's length |
| Mphf.RotatedPermutes | mphf.py:144-146 | rotation keeps the row's elements and their counts |
| Mphf.RotatedAt | mphf.py:136-137 | for abs(d) <= len, position i receives the element at (i + d) mod len: positive d rotates left |
| Mphf.RotatedZero | mphf.py:144-146 | rotating by 0 leaves the row unchanged |
| Mphf.RotatedInverse | mphf.py:134-148 | rotating by d and then by -d restores the row |
| Mphf.RotateRow | mphf.py:134-148 | the row's contents become row[d:] + row[:d] in place, and the same list is returned |
| Mphf.RotateRowDoctest | mphf.py:139-142 | [1, 2, 3, 4, 5] rotated by 1 is [2, 3, 4, 5, 1], and by -2 is [4, 5, 1, 2, 3] |
| Mphf.RotatedStep | mphf.py:86-87 | one more pop(0)/append after a rotation by d is the rotation by d + 1 |
| Mphf.NoRotationFindsItem | mphf.py:85-90 | when no rotation brings an item to position i, the row has no item at all |
| Mphf.PopAppend | mphf.py:86-87 | xs.pop(0); xs.append(head) moves the head to the back |
| Mphf.StepsToItemIsLeast | mphf.py:85-90 | the step count is the least rotation that brings an item to position i |
| Mphf.StepsToItemNone | mphf.py:85-90 | no rotation brings an item to position i exactly when the row has no item |
| Mphf.RotateToItem | mphf.py:83-92 | the loop rotates left until position i holds an item and returns the count; a row without items raises ValueError and is back as it was |
| Mphf.RotateNones | mphf.py:76-92 | AssertionError when n >= len(xs); IndexError for an n too negative; ValueError exactly when the row has no item, leaving it as it was; otherwise the least number of left rotations that brings an item to xs[n], with the row rotated by it |
| Mphf.FirstNonNone | mphf.py:103-107 | the least index that holds an item; ValueError when there is none |
| Mphf.FirstNonNoneAt | mphf.py:103-107 | the index of the first item is what FirstNonNone returns |
| Mphf.GetFirstNonNone | mphf.py:103-107 | the loop returns the least index that holds an item, or ValueError |
| Mphf.NoneCount | mphf.py:59-65 | at most the row's length, and equal to it exactly when the row has no item |
| Mphf.NoneCountIsMultiplicity | mphf.py:59-65 | the count is the number of occurrences of None |
| Mphf.CountNones | mphf.py:59-65 | the counting loop returns the number of None cells |
| Mphf.FitsFromMeans | mphf.py:219-230 | from index i on, the column check passes exactly when every item at index j lands on a free column (j + offset) mod len |
| Mphf.ColumnsFitMeans | mphf.py:202-230 | check_columns_okay passes exactly when every item at index j lands on a free column (j + offset) mod len |
| Mphf.CheckColumnsOkay | mphf.py:202-230 | the loop, which returns at the first item that lands outside the free columns, computes that predicate |
| Mphf.ColumnsFitSmallCases | mphf.py:207-216 | the five doctest cases: true, true, false, true, false |
| Mphf.CheckColumnsOkayDoctest | mphf.py:207-216 | the loop gives [True, True, False, True, False] on the doctests |
| Mphf.PlaceFirstFails | mphf.py:124 | place_first_at raises ValueError exactly on a row without items |
| Mphf.PlaceFirstPutsFirstAt | mphf.py:109-132 | for a column n, the row's first item ends up at n, and n - first is returned, with absolute value below the row's length |
| Mphf.PlaceFirstPermutes | mphf.py:129-130 | placement keeps the row's elements |
| Mphf.PlaceFirstMoves | mphf.py:124-132 | after placement, column c holds the item from index (c - shift) mod len |
| Mphf.PlaceFirstAt | mphf.py:109-132 | rotates the row in place as place_first_at does and returns the displacement; a failure leaves the row unchanged |
| Mphf.PlaceFirstFirstDoctest | mphf.py:113-117 | [None, None, None, 1] placed at 0 becomes [1, None, None, None], returning -3 |
| Mphf.PlaceFirstSecondDoctest | mphf.py:118-122 | [1, None, 1, 2] placed at 2 becomes [1, 2, 1, None], returning 2 |
| Mphf.PlaceFirstAtDoctest | mphf.py:113-122 | the method reproduces both doctests |
| Mphf.FittingFromIsFirst | mphf.py:193-194 | the search finds the first free column that passes the column check, and finds none only when no column passes |
| Mphf.TryAllFreeSlots | mphf.py:192-200 | places the row at the first free column that passes the column check and returns the displacement; ValueError, with the row unchanged, when no column passes |
| Mphf.OccupiedColumns | mphf.py:183-184 | the generator yields exactly the indices that hold an item, each once, in increasing order |
| Mphf.Remove | mphf.py:187 | list.remove succeeds exactly when the value is present, and raises ValueError otherwise |
| Mphf.RemoveDistinct | mphf.py:187 | removing a present value from a list without repeats leaves exactly the other values |
| Mphf.RemoveAllDistinct | mphf.py:185-187 | removing distinct columns succeeds exactly when all are present, and leaves exactly the other free columns; otherwise ValueError |
| Mphf.MarkFilled | mphf.py:183-187 | the loop removes each occupied column of the placed row, in order |
| Mphf.CheckMatchesPlacementFromZero | mphf.py:194-197 | when the row's first item is at index 0, a column that passes the column check yields a placement on free columns only |
| Mphf.ColumnsFitCollidingRow | mphf.py:219-230 | with [0, 2, 3] free, the column check refuses [None, 1, None, 2] at 0 and 2 and approves it at 3 |
| Mphf.CheckApprovesCollidingPlacement | mphf.py:183-197 | as written, the column check approves a column whose placement fills column 1, which is not free, so remove raises ValueError |
| Mphf.CollidingRowFits | mphf.py:192-200 | try_all_free_slots places the colliding row at column 3, rotated right by 2 |
| Mphf.ColumnsFitMissedRow | mphf.py:219-230 | with [2, 3] free, the column check refuses [None, 5, 6, None] at both columns |
| Mphf.CheckMissesFittingPlacement | mphf.py:192-200 | as written, try_all_free_slots raises ValueError although placing the first item at column 2 would fill exactly the free columns |
| Mphf.MissedPlacementFills | mphf.py:183-187 | that placement would fill exactly columns 2 and 3 |
| Mphf.MissedRowPlaces | mphf.py:109-132 | place_first_at puts [None, 5, 6, None] at column 2 by a right rotation by 1 |
| Mphf.MissedRowFitsNowhere | mphf.py:193-194 | no free column passes the column check for that row |
| Mphf.PairedUpToMembers | mphf.py:94-98 | pair_elements yields exactly the rows that hold an item, with their None counts, each once, in row order |
| Mphf.ScoreBound | mphf.py:101 | exceeds every None count |
| Mphf.ByScoreFromPermutes | mphf.py:101 | the score buckets together hold each entry exactly once |
| Mphf.SortByScorePermutes | mphf.py:101 | the sort by None count keeps every entry exactly as often as it occurs |
| Mphf.ByScoreFromInOrder | mphf.py:101 | the buckets list entries by ascending None count, ties in row order (a stable sort) |
| Mphf.QueueIsSortedPairing | mphf.py:100-101 | make_queue lists each row that holds an item exactly once, with its None count, ordered by None count and then by row number: a permutation of pair_elements, stably sorted |
| Mphf.QueueNumbersRows | mphf.py:100-101 | every queue entry names a row of the matrix |
| Mphf.PairElements | mphf.py:94-98 | the loop collects pair_elements of the matrix's current rows |
| Mphf.MakeQueue | mphf.py:100-101 | returns make_queue of the matrix's current rows |
| Builtins.Range | mphf.py:164 | range(n) lists 0 .. n-1 (also the table czech.py shuffles at line 118) |
| Mphf.Zeros | mphf.py:161 | [0] * n |
| Mphf.RearrangeRows | mphf.py:151-189 | rotates the matrix's rows in place and returns (or raises) exactly what rearrange_rows does on the old rows |
| Mphf.PlaceRow | mphf.py:175-187 | one round of the loop: try_all_free_slots rotates the row in place, then its occupied columns are removed from the free ones |
| Mphf.QueueNumbersAreItemRows | mphf.py:164-167 | the queue names exactly the rows that hold an item |
| Mphf.OrderedNamesUnique | mphf.py:167 | the queue never names a row twice |
| Mphf.LoopInvariantHoldsInitially | mphf.py:161-167 | before the loop, every row is undisplaced, every column is free, and the queue holds every row that has an item |
| Mphf.DisplacedStep | mphf.py:180 | recording the rotation of the placed row keeps each row equal to its original rotated by its displacement |
| Mphf.QueuedStep | mphf.py:175 | rows still queued stay undisplaced after the head is taken |
| Mphf.PlacedStep | mphf.py:180-187 | a row placed on free columns only, whose columns are then removed, keeps the placed rows apart |
| Mphf.FitRowRotates | mphf.py:192-200 | a placement found by try_all_free_slots is the row rotated by less than a whole row |
| Mphf.FitStep | mphf.py:180-187 | and its items lie on free columns only, which removal then takes out |
| Mphf.LoopInvariantStep | mphf.py:173-187 | one round that raises nothing keeps the loop invariant |
| Mphf.RearrangeFromSound | mphf.py:173-189 | a loop that ends normally leaves every row its original rotated by its displacement, rows without items at 0, and no column holding items of two rows |
| Mphf.RearrangeIsSound | mphf.py:151-189 | a successful rearrange_rows rotates each row by less than a whole row, leaves rows without items undisplaced, and puts at most one item in each column |
| Mphf.SettledOf | mphf.py:151-189 | rows displaced that way, with one item per column, are settled |
| Mphf.DisplacedPointwise | mphf.py:180 | each cell of a settled row is the original row's cell at (c - r[i]) mod w |
| Mphf.RearrangeSettles | mphf.py:151-189 | RearrangeIsSound with each displacement stated as a rotation |
| Mphf.RemoveAllFailsWithValueError | mphf.py:185-187 | the removal loop raises nothing but ValueError |
| Mphf.RearrangeFromFailsWithValueError | mphf.py:173-187 | the loop raises nothing but ValueError |
| Mphf.RearrangeFailures | mphf.py:161-189 | IndexError exactly for an empty matrix (matrix[0]); every other failure is ValueError |
| Mphf.EmptyRows | mphf.py:239 | an n-by-n grid of None |
| Mphf.SquareArray | mphf.py:234-239 | ValueError exactly when n <= 0; otherwise n new distinct rows of n Nones |
| Mphf.ColumnItemFromIsTopmost | mphf.py:67-73 | choose_non_none returns the item of the topmost row that has one in the column, and raises ValueError exactly when none does |
| Mphf.ChooseNonNone | mphf.py:67-73 | the loop down the column computes that |
| Mphf.FlattenFromMeans | mphf.py:41-42 | the flattened list holds choose_non_none of each column, and is built exactly when every column has an item |
| Mphf.FlattenRows | mphf.py:41-42 | the comprehension as a loop |
| Mphf.FlattenFromFailsWithValueError | mphf.py:41-42 | the flattening raises nothing but ValueError |
| Mphf.SeqMin | mphf.py:18 | min(items): an item no larger than any other |
| Mphf.SeqMax | mphf.py:24 | max(items): an item no smaller than any other |
| Mphf.CeilSqrtFrom | mphf.py:24 | the least s >= t whose square reaches m |
| Mphf.CeilSqrt | mphf.py:24-25 | the least t with t * t >= m: the ceiled square root, so the assertion holds |
| Mphf.CeilSqrtOfSquare | mphf.py:24 | ceil(sqrt(s * s)) == s |
| Mphf.Grid | mphf.py:29-33 | a t-by-t grid |
| Mphf.Side | mphf.py:24 | the side t is the ceiled square root of max(items) + offset |
| Mphf.GridHoldsKeys | mphf.py:29-33 | cell (x, y) holds exactly the key x * t + y, which sits at row k / t and column k mod t |
| Mphf.GridAdd | mphf.py:33 | writing one more key fills exactly its own cell |
| Mphf.GridOfNoKeys | mphf.py:27 | with no keys the grid is the empty square array |
| Mphf.KeysNotNegative | mphf.py:17-20 | with minimize, or with no negative item, every key is non-negative |
| Mphf.SetCell | mphf.py:33 | arr[i][j] = v changes exactly that cell |
| Mphf.PlaceKey | mphf.py:31-33 | writes the key at row k / t (a Python index) and column k mod t, or reports a row outside the grid and writes nothing |
| Mphf.KeyCellInGrid | mphf.py:31-33 | writing a non-negative key into its cell adds it to the grid |
| Mphf.PlaceItems | mphf.py:29-33 | IndexError exactly when some key's row is outside the grid; otherwise, for non-negative keys, the grid of the keys |
| Mphf.MakeHash | mphf.py:8-50 | with minimize=False the call never returns a hash; when every key is non-negative it returns or raises exactly as MakeHashSpec says |
| Mphf.UnshiftColumn | mphf.py:180 | undoing a displacement returns the column |
| Mphf.ReshiftColumn | mphf.py:180 | displacing back and forward returns the column |
| Mphf.OnlyItemIsChosen | mphf.py:67-73 | with one item per column, choose_non_none takes that item |
| Mphf.ChosenItemIsInARow | mphf.py:67-73 | an item choose_non_none takes comes from some row |
| Mphf.Slot | mphf.py:246-249 | the slot of a key lies in [0, t): column k mod t moved by its row's displacement, wrapped around |
| Mphf.KeyAtSlot | mphf.py:41-42 | every key is what the flattening takes from the key's slot: its column k mod t moved by its row's displacement, wrapped around |
| Mphf.SlotOfChosen | mphf.py:41-42 | whatever the flattening takes from a column is a key whose slot is that column |
| Mphf.HashOfKeysIsPerfect | mphf.py:27-50 | a successful run from the keys on returns a perfect hash of the keys with the given side and offset |
| Mphf.MakeHashIsPerfect | mphf.py:8-50 | make_hash returns only with minimize, with offset = -min(items) and t * t >= max(items) + offset, and the result is a perfect hash of the keys: each key is at its slot, and each slot holds the key whose slot it is |
| Mphf.HashOfGridFailures | mphf.py:36-50 | from the filled grid on, NameError exactly when offset is unbound and the rest would return; any other failure is ValueError |
| Mphf.SquareMonotone | mphf.py:24 | squares do not decrease |
| Mphf.RowInGrid | mphf.py:31 | a key below t * t lies in a row of the grid |
| Mphf.KeysUpToTop | mphf.py:17-24 | every key lies in [0, max(items) + offset], which is itself a key |
| Mphf.KeyOfItem | mphf.py:20 | every item's key is a key |
| Mphf.ItemOfKey | mphf.py:20 | every key is an item's key |
| Mphf.MakeHashSpecOf | mphf.py:15-27 | make_hash on items: from the keys, the side and the offset on |
| Mphf.HashOfKeysFailures | mphf.py:24-50 | from the keys on: ValueError when the largest key is 0, IndexError exactly when it is a positive t * t, NameError exactly when minimize is off and the rest would return, never AssertionError |
| Mphf.HashOfKeysValueError | mphf.py:24-27 | the ValueError part |
| Mphf.HashOfKeysNoAssertionError | mphf.py:25 | the assertion never fails |
| Mphf.HashOfKeysIndexError | mphf.py:29-33 | the IndexError part |
| Mphf.HashOfKeysNameError | mphf.py:49 | the NameError part |
| Mphf.MakeHashValueError | mphf.py:24-27 | make_hash raises ValueError when max(items) + offset is 0: the square has side 0 |
| Mphf.MakeHashNoAssertionError | mphf.py:25 | make_hash never fails its assertion |
| Mphf.MakeHashIndexError | mphf.py:24-33 | make_hash raises IndexError exactly when max(items) + offset is a positive perfect square |
| Mphf.MakeHashNameError | mphf.py:17-20 | make_hash raises NameError exactly when minimize is off and the run would otherwise return |
| Mphf.SquareTopRaisesIndexError | mphf.py:24-33 | a positive square max(items) + offset gives IndexError |
| Mphf.UnminimizedRaisesNameError | mphf.py:17-49 | for items whose least one is 0, make_hash(items, minimize=False) raises NameError exactly when make_hash(items) returns |

## Left out

- random.shuffle: the values it draws are given to the model as inputs, and the model runs the Fisher-Yates walk over them. Which draws occur, and the expected number of trials (at most ceil(sqrt(n)) in `tests/test_czech.py`), are not modelled; only the worst-case cap of m * m trials is.
- Floating-point `sqrt` and `ceil` in make_hash: the side is the exact integer ceiling of the square root (`CeilSqrt`). Float rounding on very large keys is not modelled.
- Mphf.MakeHash: with minimize=False and a negative item, only the failure is stated. Which exception is raised then depends on the frozenset's iteration order in the placement loop, which the model does not fix.
- Mphf.SquareArray: the `type(n) is not int` test is not modelled, since the argument is always an int here.
- Printing: the `print` statements of make_hash and rearrange_rows, `print_array`, and `pprint`.
- `perfect_hash` and the `__main__` block of mphf.py: a hard-coded table and a demo. Its lookup `r[x] + y` does not wrap around; the model's `Slot` does, `(k mod t + r[k / t]) mod t`, because rearrange_rows rotates the rows with wrap-around, so a key's item sits at that column.
- `do_example` in czech.py, and `to_dot`, `graph_as_dot`, `print_example_graph` and `__repr__` in forest.py: diagnostic output.
- Forest.NewForestGraph: the `vertices` argument of `ForestGraph.__init__` is not modelled. Such vertices would get no component entry. czech.py only passes edges.
- Python's `is` on component sets is modelled by identities. Aliasing of the underlying set objects beyond that is not modelled.
- Czech.CzechHashBuilder.Assign: it is not stated that each tree of the forest has exactly one vertex with the value 0, because that is not so: a neighbour of a root across the edge of word 0 gets 0 - 0 = 0 (czech.py lines 175 and 190).
- Czech.CzechHashBuilder.constructor: the constructor stops after the first two lines of `__init__`. The mapping and assignment steps follow as separate methods, and `NewCzechHashBuilder` runs all of them in the order `__init__` does.
- The closures f1, f2 and czech_hash: the model holds the values they capture (`PickableHash`) and applies `MiniHash` and `CzechHash` to them. Garbage collection and pickling are not modelled.
- czech_hash on a word whose g slots were never assigned adds None to an int (TypeError): `CzechHash` returns None there.
- `hash_parameters`' `minimize_indices` argument and `__init__`'s `minimize` argument are ignored by the source and not modelled.
- `to_hash_info`: it could never build a HashInfo (it passes one field of four).
- `make_dict`: only its doctest is modelled (`MakeDictExample`), with a hash that sends the i-th month to i, as any ordered hash of the months does. `create_dict_subclass`'s docstring and the dynamic `type(...)` call are not modelled.
- The methods the generated class inherits from `MutableMapping` (`update`, `get`, `keys`, ...) are not modelled. The keyword arguments given to `init` are stored with `SetItem` in the doctest.
- SlotDict.IndexOrKeyError: the hash is taken to give a slot index for every key (`Fits`). A hash value past the slots (IndexError), a negative one (Python counts it from the end), or czech_hash failing on a word outside the list is not modelled.
- `dict_repr` is modelled as the list of pairs it prints (`Items`), not as the formatted string.
- Mphf.RearrangeRows: the matrix must be made of distinct list objects (`DistinctRows`), as square_array makes it. Rows that alias one another are not modelled.
- `setup.py` and `perfection/__init__.py`: packaging, and re-exports of a module that is not part of this model.
