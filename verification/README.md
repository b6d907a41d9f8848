# Rank-partitioned report views of TopoNetX

TopoNetX stores the cells of every kind of complex behind small read-only
"report views" (`toponetx/classes/reportviews.py`). This project is a Dafny
model of the lookup core of those views:

- **HyperEdgeView.** It holds a combinatorial complex's hyperedges under an
  externally assigned rank: rank → (frozenset key → attribute record). The model covers:
  - key normalisation (`_to_frozen_set`);
  - rank resolution by an ascending scan over `allranks` (`get_rank`);
  - `__contains__`, `__getitem__`, `skeleton` with its five relative levels and their aliases, `shape` and `__len__`;
  - the neighbouring-rank helpers `_get_lower_rank` and `_get_higher_rank`.
- **ColoredHyperEdgeView.** Several hyperedges may share a key, and a
  multiplicity key tells them apart: rank → (key → (multiplicity key →
  record)). The model covers the `(elements, key)` form of `__contains__` and
  `__getitem__`, `skeleton` with and without keys, `shape`, `__len__` and
  `__iter__`.
- **SimplexView and PathView.** A key's layer comes from its size
  (`faces_dict[len - 1]`). A simplex is keyed by a vertex set and a path by a
  vertex tuple. The model covers `__contains__`, `__getitem__`, `shape` and
  `__len__`, including Python's negative indexing when an empty key names
  layer `-1`.
- **NodeView.** It holds singleton keys and unwraps multiplicity key 0 in a
  colored complex.
- **CellView.** A boundary tuple maps to the records of every cell with that
  boundary. The model covers `__getitem__` and `__len__`.

Every Python exception the modelled code can raise is a `Result` error
(`KeyError`, `ValueError`, `TypeError`, `IndexError`). Labels are `int`.
Attribute records are `map<string, Value>`. A caller names a cell by an
`Item`:
- a bare label (`Atomic`);
- a list, tuple or set of labels (`Collection`). `CellView` and `PathView` admit only lists and tuples, and `NodeView` only lists and sets (see "## Left out");
- a cell object (`CellObj`).

Module layout:

| file | module | contents |
|---|---|---|
| `results.dfy` | `Results` | errors, `Result`, `Option` |
| `collections.dfy` | `Collections` | duplicate-freedom, sums, picking an element |
| `keys.dfy` | `Keys` | labels, records, `Item`, key normalisation |
| `registry.dfy` | `Registry` | the rank-keyed registry: `allranks`, the rank scan, `get_rank` |
| `hyperedges.dfy` | `HyperEdges` | `HyperEdgeView` |
| `colored.dfy` | `ColoredHyperEdges` | `ColoredHyperEdgeView` |
| `graded.dfy` | `Graded` | the size-indexed layers shared by simplices and paths |
| `simplices.dfy` | `Simplices` | `SimplexView` |
| `paths.dfy` | `Paths` | `PathView` |
| `nodes.dfy` | `Nodes` | `NodeView` |
| `cells.dfy` | `Cells` | `CellView` |
| `scenarios.dfy` | `Scenarios` | the documented examples and unit tests as concrete lemmas |

Invariants that the owning complexes maintain, and that the views rely on
without checking, appear as predicates. Lemmas take them as preconditions:
- `Registry.SingleRank`: a key sits at one rank only.
- `Simplices.WellGraded` and `Paths.WellGraded`: every key sits in the layer of its size.
- `Simplices.Sized` and `Paths.Sized`: there is one layer per dimension up to `max_dim`.
- `Nodes.WellColored`: every colored node has multiplicity key 0.

The documented behaviour of the views and their code disagree in a few
places. This model follows the code:
- The documented behaviour is that membership tests answer true or false and never raise. In the code,
  `HyperEdgeView.__contains__` raises KeyError for a bare label when a
  non-empty view has no rank 0. `SimplexView` and `PathView` raise
  IndexError for a bare label when they have no layers.
- The colored `__iter__` is not sorted. It walks the registry in its own
  order and skips rank 0.

## Model

| member | source | states |
|---|---|---|
| Keys.Elements | toponetx/classes/reportviews.py:540-541 | `frozenset(items)` holds exactly the labels of the collection, and is empty exactly for the empty collection |
| Keys.ToFrozenSet | toponetx/classes/reportviews.py:525-544 | a hyperedge object gives its elements, an iterable gives the set of its labels, a bare label gives its singleton |
| Keys.ToTuple | toponetx/classes/reportviews.py:1181-1192 | a sequence gives itself as a tuple, a path its elements, a bare label the one-vertex tuple |
| Keys.NormaliseIgnoresOrder | toponetx/classes/reportviews.py:540-541 | collections with the same labels normalise to the same key, whatever their order or repetitions |
| Keys.NormaliseShapesAgree | toponetx/classes/reportviews.py:538-544 | a bare label, a one-label list and a one-label hyperedge name one key; normalising is idempotent: any list enumerating a key's labels, passed back in, gives that key again |
| Keys.SequenceKeysKeepOrder | toponetx/classes/reportviews.py:1181-1185 | two labels in opposite orders give different path keys but the same set key |
| Registry.AllRanks | toponetx/classes/reportviews.py:760-768 | `allranks` is strictly increasing and holds exactly the stored ranks, once each |
| Registry.FirstIndex | toponetx/classes/reportviews.py:749-752 | the scan stops at the first position whose rank holds the key, and fails exactly when no rank in the list holds it |
| Registry.FirstIndexIsLeast | toponetx/classes/reportviews.py:749-752 | because `allranks` ascends, the first position found holds the least rank storing the key |
| Registry.ScanRanks | toponetx/classes/reportviews.py:745-752 | the scan finds a rank exactly when some rank stores the key, and that rank is the least one |
| Registry.RankOf | toponetx/classes/reportviews.py:745-752 | an empty key has rank 0; otherwise the least rank storing the key; KeyError when none does |
| Registry.GetRank | toponetx/classes/reportviews.py:732-757 | a bare label resolves only at rank 0, otherwise KeyError; a cell object or collection resolves by the scan; empty ones resolve to rank 0 |
| Registry.RangeBounds | toponetx/classes/reportviews.py:783-788 | the first and last entries of `allranks` bound every stored rank, so the `min`/`max` guards test whether a stored rank lies below or above |
| Registry.Neighbours | toponetx/classes/reportviews.py:789 | the entries either side of a stored rank in `allranks` are its stored predecessor and successor |
| HyperEdges.Contains | toponetx/classes/reportviews.py:609-629 | an empty view holds nothing; a bare label is looked up at rank 0 only, and raises KeyError exactly when a non-empty view has no rank 0; a non-empty cell object or collection is contained exactly when some rank stores its key |
| HyperEdges.ContainsIffRankResolves | toponetx/classes/reportviews.py:594-629 | a non-empty input is contained exactly when `get_rank` resolves it; an empty one is never contained, although `get_rank` gives it rank 0 |
| HyperEdges.GetItem | toponetx/classes/reportviews.py:546-562 | a record comes back exactly when some rank stores the normalised key; the empty key is looked up at rank 0 only, and its record is the one stored there; for a non-empty key it is the record at the least rank holding it, and under the single-rank invariant the key's only record; otherwise KeyError |
| HyperEdges.Collect | toponetx/classes/reportviews.py:686-712 | the accumulation loop lists exactly the keys of the ranks in the selected relation to `rank` |
| HyperEdges.CollectNoDups | toponetx/classes/reportviews.py:686-712 | when no key sits at two ranks, the accumulation repeats no key |
| HyperEdges.CollectSplit | toponetx/classes/reportviews.py:700-712 | the at-or-above and strictly-below accumulations together list one key for each stored entry |
| HyperEdges.Skeleton | toponetx/classes/reportviews.py:651-717 | each accepted level string, long aliases included, lists exactly the keys of the ranks equal to, above, below, at-or-above or at-or-below `rank`; "equal" on an absent rank lists nothing; any other level raises ValueError; under the single-rank invariant nothing is listed twice |
| HyperEdges.Sizes | toponetx/classes/reportviews.py:564-572 | `shape` has one entry per stored rank, ascending, and each entry is the number of keys at that rank |
| HyperEdges.ShapeCountsSkeleton | toponetx/classes/reportviews.py:564-572 | the i-th entry of `shape` is the length of the "equal" skeleton at the i-th smallest rank |
| HyperEdges.SkeletonPartition | toponetx/classes/reportviews.py:574-582 | under the single-rank invariant the "upeq" and "down" skeletons of any rank share no key, repeat none, together hold every stored key, and their lengths add up to `__len__` |
| HyperEdges.LowerRankAsWritten | toponetx/classes/reportviews.py:770-789 | the code as written: -1 unless a stored rank lies both below and above `rank`; then the stored predecessor when `rank` is stored, ValueError when it is not |
| HyperEdges.HigherRankAsWritten | toponetx/classes/reportviews.py:791-809 | the code as written: -1 unless a stored rank lies both below and above `rank`; then the stored successor when `rank` is stored, ValueError when it is not |
| HyperEdges.LowerRankAsWrittenMissesTop | toponetx/classes/reportviews.py:787-788 | with ranks 0, 1, 2 stored, the rank below 2 is 1, yet the code as written returns -1 |
| HyperEdges.HigherRankAsWrittenMissesBottom | toponetx/classes/reportviews.py:807-808 | with ranks 0, 1, 2 stored, the rank above 0 is 1, yet the code as written returns -1 |
| HyperEdges.LowerRank | toponetx/classes/reportviews.py:770-789 | corrected: for a stored rank, its stored predecessor, or -1 when it is the least; for an unstored rank, ValueError inside the stored range and -1 outside it |
| HyperEdges.HigherRank | toponetx/classes/reportviews.py:791-809 | corrected: for a stored rank, its stored successor, or -1 when it is the greatest; for an unstored rank, ValueError inside the stored range and -1 outside it |
| HyperEdges.LowerHigherInverse | toponetx/classes/reportviews.py:770-809 | the corrected helpers are inverse steps: from a stored rank, going down and then up (or up and then down) returns to it |
| ColoredHyperEdges.EntryCount | toponetx/classes/reportviews.py:286 | the per-rank sum of `len(M[k])` counts the rank's (hyperedge, multiplicity key) entries |
| ColoredHyperEdges.Counts | toponetx/classes/reportviews.py:276-288 | `shape` has one entry per rank of `allranks`, each the number of that rank's entries |
| ColoredHyperEdges.WithoutZero | toponetx/classes/reportviews.py:309-312 | the ranks iteration visits are exactly the given ranks other than 0 |
| ColoredHyperEdges.IterFrom | toponetx/classes/reportviews.py:308-316 | iteration yields exactly the entries of the ranks other than 0 |
| ColoredHyperEdges.Iter | toponetx/classes/reportviews.py:300-316 | `__iter__` yields exactly the entries of every stored rank except rank 0 |
| ColoredHyperEdges.IterFromLength | toponetx/classes/reportviews.py:308-316 | iteration over a list of ranks yields as many entries as the counts of its non-zero ranks add up to |
| ColoredHyperEdges.IterMatchesLen | toponetx/classes/reportviews.py:290-316 | `__iter__` yields exactly as many entries as the corrected `__len__` counts |
| ColoredHyperEdges.IterNoDups | toponetx/classes/reportviews.py:300-316 | under the single-rank invariant `__iter__` yields each entry once |
| ColoredHyperEdges.LenAsWrittenAgrees | toponetx/classes/reportviews.py:290-298 | when rank 0 is stored and no rank is negative, `sum(shape[1:])` equals the count of entries off rank 0 |
| ColoredHyperEdges.LenAsWrittenDropsLeastRank | toponetx/classes/reportviews.py:298 | with a single hyperedge at rank 1 and no rank 0, `sum(shape[1:])` is 0 while iteration yields one entry |
| ColoredHyperEdges.SkeletonPairs | toponetx/classes/reportviews.py:419-428 | the keyed skeleton lists exactly the (hyperedge, key) entries at `rank`, each once, or nothing when the rank is absent |
| ColoredHyperEdges.SkeletonKeys | toponetx/classes/reportviews.py:429-436 | the key-less skeleton lists the hyperedge of each keyed entry, position by position, so each hyperedge stored at `rank` occurs once per multiplicity key and no other occurs |
| ColoredHyperEdges.SkeletonKeysMembers | toponetx/classes/reportviews.py:429-436 | a hyperedge appears in the key-less skeleton exactly when it is stored at `rank` with at least one multiplicity key |
| ColoredHyperEdges.ShapeCountsSkeleton | toponetx/classes/reportviews.py:276-288 | the i-th entry of `shape` is the length of the skeleton at the i-th smallest rank |
| ColoredHyperEdges.KeyAtFirstRank | toponetx/classes/reportviews.py:366-374 | the scan answers by the first rank, ascending, that holds the key: true exactly when that rank has the multiplicity key |
| ColoredHyperEdges.Contains | toponetx/classes/reportviews.py:318-382 | false on an empty view and for a bare label; a list of labels or a two-label hyperedge asks for multiplicity key 0 at the first rank holding it; any other hyperedge object asks only whether it is stored; `(elements, key)` asks for `key`, and `(label, key)` is read as the hyperedge {label, key} with key 0; empty elements are never contained |
| ColoredHyperEdges.GetItem | toponetx/classes/reportviews.py:249-273 | a two-label list and a `(label, key)` pair raise KeyError; `(elements, key)` returns the record stored under `key` at the least rank holding the elements (the rank `get_rank` finds), and raises KeyError when that rank lacks the key or no rank holds the elements; empty elements are looked up at rank 0 only, and give the record stored there under `key` |
| ColoredHyperEdges.ContainsIffGetItem | toponetx/classes/reportviews.py:249-382 | for an `(elements, key)` pair with non-empty elements, membership holds exactly when retrieval returns a record |
| ColoredHyperEdges.FirstRankHasSingle | toponetx/classes/reportviews.py:366-374 | under the single-rank invariant, asking only the first rank that holds the key loses nothing: it answers whether any rank has that entry |
| ColoredHyperEdges.ContainsIffInSkeleton | toponetx/classes/reportviews.py:318-436 | under the single-rank invariant a pair is contained exactly when its entry appears in the keyed skeleton of some rank |
| Graded.Slot | toponetx/classes/reportviews.py:865-870 | `faces_dict[n - 1]` with Python indexing: `n == 0` names the last layer, and an index past either end raises IndexError |
| Graded.Shape | toponetx/classes/reportviews.py:879-887 | `shape` has one entry per layer, each the number of keys in that layer |
| Graded.AllKeys | toponetx/classes/reportviews.py:899-907 | iteration yields exactly the keys stored in some layer |
| Graded.LenCountsKeys | toponetx/classes/reportviews.py:889-897 | when no key sits in two layers, `sum(shape)` is the number of distinct stored keys |
| Simplices.Contains | toponetx/classes/reportviews.py:945-952 | a collection or simplex is contained exactly when its vertex set has size 1..`max_dim + 1` and is stored in the layer of that size; a bare label is looked up in layer 0 and raises IndexError when there are no layers |
| Simplices.ContainsIffStored | toponetx/classes/reportviews.py:945-951 | on a well-graded view, membership holds exactly when the vertex set is among the keys iteration yields |
| Simplices.ContainsIgnoresOrder | toponetx/classes/reportviews.py:946-949 | collections with the same vertices get the same answer |
| Simplices.GetItem | toponetx/classes/reportviews.py:851-876 | a key too large for the layers raises IndexError, and an empty key reads the last layer; a stored key returns its record; an absent simplex object returns nothing while an absent collection raises KeyError; a bare label returns its singleton's record or nothing |
| Simplices.GetItemIffContains | toponetx/classes/reportviews.py:851-951 | on a well-graded view, retrieval returns a record exactly when membership holds, and that record is the one stored under the vertex set |
| Simplices.LenCountsSimplices | toponetx/classes/reportviews.py:879-897 | on a well-graded view `shape` counts each layer and `__len__` is the number of distinct simplices |
| Paths.Contains | toponetx/classes/reportviews.py:1168-1193 | a sequence or path is contained exactly when its tuple has length 1..`max_dim + 1` and is stored in the layer of that length; a bare label is looked up as a one-vertex path and raises IndexError when there are no layers |
| Paths.ContainsIffStored | toponetx/classes/reportviews.py:1181-1192 | on a well-graded view, membership holds exactly when the tuple is among the keys iteration yields |
| Paths.ContainsKeepsOrder | toponetx/classes/reportviews.py:1181-1185 | with `(a, b)` stored and `(b, a)` not, the first is contained and the second is not |
| Paths.GetItem | toponetx/classes/reportviews.py:1136-1166 | a tuple too long for the layers raises IndexError, and an empty tuple reads the last layer; a stored tuple returns its record and an absent one raises KeyError; a bare label returns its one-vertex path's record or raises KeyError |
| Paths.GetItemIffContains | toponetx/classes/reportviews.py:1136-1193 | on a well-graded view, retrieval returns a record exactly when membership holds, and that record is the one stored under the tuple |
| Paths.LenCountsPaths | toponetx/classes/reportviews.py:879-897 | on a well-graded view `shape` counts each layer and `__len__` is the number of distinct paths |
| Nodes.Contains | toponetx/classes/reportviews.py:1091-1115 | a bare label is a node exactly when its singleton is stored; a cell object exactly when its elements are; a collection exactly when it has one item whose singleton is stored |
| Nodes.Unwrap | toponetx/classes/reportviews.py:1066-1079 | a colored view returns the record under multiplicity key 0, or raises KeyError when there is none; a plain view returns the stored value unchanged |
| Nodes.GetItem | toponetx/classes/reportviews.py:1048-1079 | a cell object returns its stored value or nothing; a stored list or set returns its unwrapped value, and an absent one raises KeyError; a bare label returns its unwrapped value when it is a node, and nothing otherwise; unwrapping a colored value without key 0 raises KeyError |
| Nodes.GetItemIffContains | toponetx/classes/reportviews.py:1048-1115 | on a well-colored view, for a bare label, a cell object or a one-item list or set, retrieval returns a value exactly when membership holds, and a colored view returns the record under key 0, except for a cell object, whose stored value comes back as it is (a longer list such as `[1, 1]` can be retrieved although membership answers `None`) |
| Nodes.LenCountsLabels | toponetx/classes/reportviews.py:1081-1089 | when every key is a singleton, the labels of the stored keys are exactly the contained labels, and `__len__` is their number |
| Cells.GetItem | toponetx/classes/reportviews.py:85-97 | a bare label raises TypeError; an absent boundary raises KeyError; otherwise the records of the boundary, in order, unwrapped exactly when there is one |
| Cells.LenOf | toponetx/classes/reportviews.py:149-157 | the sum of the record-list lengths is the number of (boundary, position) cells |
| Cells.LenCountsRecords | toponetx/classes/reportviews.py:149-157 | `__len__` counts each cell once, and the cells of a stored boundary are exactly the records its lookup returns |
| Scenarios.SimplexContainsDoctest | toponetx/classes/reportviews.py:926-943 | the `__contains__` doctest: 1 is in the view and 2 is not; later, {1, 2} is in the view while {1, 3} and {1, 2, 3} are not |
| Scenarios.CellGetItemTest | test/classes/test_reportviews.py:12-50 | the unit test's cell view: the shared boundary returns red, green and square in order; (1, 2, 3, 8) raises KeyError whether named by a cell or a tuple; the label 1 raises TypeError; the view holds four cells |
| Scenarios.SmallComplexLookups | toponetx/classes/reportviews.py:745-752 | on nodes 1 and 2 with the edge {1, 2}: [2, 1] has rank 1 and its record is found |
| Scenarios.CollectionAtLeastRank | toponetx/classes/reportviews.py:546-562 | a non-empty list whose labels the rank scan finds first at `q` has rank `q`, and retrieval returns the record stored at `q` |
| Scenarios.SmallComplexMembership | toponetx/classes/reportviews.py:609-629 | on that complex the label 1 is contained and sits at rank 0, and the empty list is not contained |
| Scenarios.SmallComplexSkeleton | toponetx/classes/reportviews.py:693-717 | on that complex an unknown level raises ValueError, and the skeleton below rank 1 is exactly the two nodes |
| Scenarios.DownOfEdgeRank | toponetx/classes/reportviews.py:700-712 | on a view whose ranks are exactly 0 and 1, the "down" skeleton of rank 1 lists exactly the keys at rank 0 |
| Scenarios.TwoColorsLookups | toponetx/classes/reportviews.py:249-273 | with nodes 1 and 2 at rank 0 and two colored hyperedges on {1, 2} at rank 1: `([1, 2], 1)` retrieves the second record, and `[1, 2]` alone raises KeyError |
| Scenarios.TwoColorsMembership | toponetx/classes/reportviews.py:318-382 | on that complex `([2, 1], 0)` is contained and `([1, 2], 5)` is not |
| Scenarios.PairAtLeastRank | toponetx/classes/reportviews.py:366-382 | an `(elements, key)` pair with a non-empty list is contained exactly when the least rank holding the elements stores `key` for them |
| Scenarios.TwoColorsLen | toponetx/classes/reportviews.py:290-316 | that colored complex holds two hyperedges off rank 0: `__len__` as written and the corrected length both count 2, because rank 0 is present |
| Scenarios.LenOverNodeRank | toponetx/classes/reportviews.py:290-298 | on a colored view whose ranks are exactly 0 and 1, `__len__` as written and the corrected length both count the entries at rank 1 |

## Left out

- `__repr__`, `__str__` and the `name` attribute: these only format text.
- `CellView.raw`: it repeats `__getitem__`, but returns cell objects where `__getitem__` returns attribute records.
- `CellView.__contains__`: it relies on `Cell.is_homotopic_to`, which is not part of this model.
- `CellView.__iter__` and the iterators of the other views: only their membership is modelled, through `Cells.Entries`, `Graded.AllKeys`, `HyperEdges.Skeleton` and `ColoredHyperEdges.Iter`.
- The constructors and the owning complexes' mutation methods. The views are read-only, and the invariants the complexes keep appear as predicates.
- `sorted()` in `skeleton`, and dict iteration order in `skeleton`, `__iter__` and the record lists. These lists are modelled by their membership, length and absence of repeats, not by their order. Python's ordering of frozensets is a subset order, not a total order. (`sorted()` in `allranks` is modelled: `Registry.AllRanks` is strictly increasing.)
- The inner integer keys of `CellView._cells`. Only the order they give the records is kept.
- String labels. Labels are `int` here, so a string argument is not modelled. The views disagree on strings. `get_rank` has a `str` branch (reportviews.py:740-744, and 459-463 in the colored view) that looks the string up as a bare label at rank 0. `_to_frozen_set` (540-541) and `HyperEdgeView.__contains__` (620-627) treat a string as an iterable and split it into its characters. So for a node `"v1"` stored as `frozenset({"v1"})`, `get_rank("v1")` is 0, yet `"v1" in view` is False and `view["v1"]` raises KeyError. The `int` labels hide this disagreement: `HyperEdges.ContainsIffRankResolves` holds only for non-string labels.
- Inputs of types the views do not handle, such as `None` or a dict, are not modelled, and neither is a set passed to `PathView` or to `CellView`. `CellView.__getitem__` raises TypeError for a set; in `Cells.GetItem`, `Collection` stands for a tuple or list only.
- A tuple passed to `NodeView`. Tuples are hashable, so `__contains__` takes the bare-label branch and looks up `frozenset({t})`, which answers False for `(1,)`. `__getitem__` takes the iterable branch and finds the node `{1}`. The two therefore disagree on tuples. In `Nodes`, `Collection` stands for a list or set only, and `Nodes.GetItemIffContains` is not claimed for tuples.
- `ColoredHyperEdges.GetItem`: its precondition admits only the two-element forms. Python leaves any other input with an unbound local variable, which is an error of the code rather than a documented result.
- `ColoredHyperEdges.Contains`: a Python set of two labels is not subscriptable and raises TypeError. `Collection` here stands for a list or tuple.
- `HyperEdges.Shape`, `HyperEdges.Len`, `ColoredHyperEdges.Shape`, `ColoredHyperEdges.Len`, `Graded.Len`, `Cells.Len` and `Nodes.Len` (reportviews.py:1081-1089): these are stated through lemmas that relate them to `skeleton`, to iteration and to the stored keys (`HyperEdges.SkeletonPartition`, `ColoredHyperEdges.IterMatchesLen`, `Graded.LenCountsKeys`, `Cells.LenCountsRecords`, `Nodes.LenCountsLabels`), not through contracts of their own.
- `ColoredHyperEdges.LenAsWritten` (reportviews.py:298): the code as written, with no contract of its own. `ColoredHyperEdges.LenAsWrittenAgrees` and `ColoredHyperEdges.LenAsWrittenDropsLeastRank` state what it computes.
- `HyperEdges.ParseLevel` (reportviews.py:680-717): the level dispatch of `skeleton`, with no contract of its own. `HyperEdges.Skeleton` states which strings are accepted and what each selects.

## Findings

| source | as written | input that shows it | evidently intended | confidence | as-written member | corrected member |
|---|---|---|---|---|---|---|
| toponetx/classes/reportviews.py:787 | `_get_lower_rank` returns -1 whenever `rank >= max(ranks)`, so the greatest stored rank has no lower rank | ranks 0, 1, 2 stored, `_get_lower_rank(2)` returns -1 | 1, the greatest stored rank below 2 | not executed | HyperEdges.LowerRankAsWrittenMissesTop | HyperEdges.LowerRank |
| toponetx/classes/reportviews.py:807 | `_get_higher_rank` returns -1 whenever `rank <= min(ranks)`, so the least stored rank has no higher rank | ranks 0, 1, 2 stored, `_get_higher_rank(0)` returns -1 | 1, the least stored rank above 0 | not executed | HyperEdges.HigherRankAsWrittenMissesBottom | HyperEdges.HigherRank |
| toponetx/classes/reportviews.py:298 | `__len__` is `sum(self.shape[1:])`, which drops the least stored rank, whatever it is, instead of rank 0 | one hyperedge {1, 2} at rank 1 and no rank 0: `len` is 0 while `__iter__` yields one entry | 1, the number of entries `__iter__` yields (every rank except 0) | not executed | ColoredHyperEdges.LenAsWrittenDropsLeastRank | ColoredHyperEdges.IterMatchesLen |
