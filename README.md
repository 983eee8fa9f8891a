# Degree centrality and countmin sketches, modelled in Dafny

This project models two parts of an in-database analytics library.

**Degree centrality** (`centrality.dfy`, module `Centrality`) is an aggregate over an edge list.
- The state `CentralityAccumulator` holds a row count and a flat endpoint vector. Its `operator<<(tuple)` appends the two endpoints of an edge. The shipped transition function `degcent_transition` never calls it: its append is commented out, so it returns the state unchanged. The model covers the `operator<<(tuple)` it would call.
- Its `operator<<(other)` merges two partial states. The merge function `degcent_merge_states` calls it.
- `DegreeCentrality::compute` turns a state into parallel `vertex` and `degree` vectors, and the final step emits `(vertex(i), degree(i))` pairs.

Eigen's `<<` on a vector is read as appending at the end. This is the only reading consistent with `numRows += 2`.

The model follows the code as written:
- `compute` starts `len` at 0 and never advances it, so every endpoint becomes its own vertex of degree 1.
- Merging two non-empty states adds their endpoint vectors element by element while it sums their row counts.

Both behaviours are listed under Findings, next to corrected versions and their proofs.

**Countmin sketches** (`countmin.dfy`, `ranges.dfy`, `layout.dfy`, modules `CountMin`, `DyadicRanges` and `SketchLayout`) model the sketch header.
- A countmin sketch is DEPTH = 8 rows of NUMCOUNTERS = 1024 64-bit counters.
- A key is counted by incrementing one hashed counter per row. Its estimate is the minimum of those counters, and the model proves the estimate is never below the key's true count.
- The domain constants assume a 64-bit `long` and an arithmetic (sign-extending) `>>`. On that reading, MAXVAL = 2^62 - 1 and MINVAL = -2^62.
- `find_ranges` splits an integer range into dyadic (aligned power-of-two) spans. The model proves the spans tile the range exactly, are dyadic, and reproduce the documented example 14..48. For a range at most MAX_WIDTH = 2^32 - 1 wide, the model proves there are at most LONGBITS = 64 spans, so they fit the `rangelist` buffer. Wider ranges can need more: `DomainRangeOverflows` exhibits one with 122.
- The `cmtransval` and `mfvtransval` structures and their size and offset macros are modelled as arithmetic over abstract `sizeof` values.

Where state changes in place, the model uses classes and arrays:
- the accumulator and the compute result are classes with `seq` fields;
- the counter matrix is an `array2<int>`;
- the `rangelist` is a class over an `array2<int>` with its `emptyoffset` cursor.

Each in-place method is specified against a value-level function, and the properties are proved about those functions.

## Model

| member | source | states |
|---|---|---|
| Centrality.WithEdge | src/modules/centrality/DegreeCentrality_impl.hpp:56-76 | appending edge (x, y) adds two rows and puts x then y after the old endpoints, which are unchanged |
| Centrality.WithEdgeBindable | src/modules/centrality/DegreeCentrality_impl.hpp:68-74 | appending an edge keeps numRows equal to the number of stored endpoints, and even |
| Centrality.AccumulateBindable | src/modules/centrality/DegreeCentrality_impl.hpp:56-76 | any sequence of appends from an empty state holds 2n rows and exactly the flattened endpoints, and can be bound |
| Centrality.Accumulate | src/modules/centrality/DegreeCentrality_impl.hpp:56-76 | the state after n appends from an empty state has 2n rows and can be bound |
| Centrality.CentralityAccumulator.constructor | src/modules/centrality/DegreeCentrality_impl.hpp:19-25 | a new accumulator holds the empty state: no rows and no endpoints |
| Centrality.CentralityAccumulator.AppendEdge | src/modules/centrality/DegreeCentrality_impl.hpp:56-76 | the in-place append leaves the state WithEdge describes |
| Centrality.CentralityAccumulator.Assign | src/modules/centrality/DegreeCentrality_impl.hpp:104-109 | after assignment this state equals the other's earlier state |
| Centrality.CentralityAccumulator.Merge | src/modules/centrality/DegreeCentrality_impl.hpp:85-98 | merge copies the other state into an empty one, ignores an empty other, and otherwise sums the row counts and adds the endpoint vectors element-wise |
| Centrality.Merged | src/modules/centrality/DegreeCentrality_impl.hpp:85-98 | the merged state always has the sum of the two row counts, and keeps this state's vector length when this state is non-empty |
| Centrality.MergeDefinedAccumulate | src/modules/centrality/DegreeCentrality_impl.hpp:96 | the element-wise add is defined on two edge lists' states exactly when one list is empty or both have the same number of edges |
| Centrality.MergeIntoEmpty | src/modules/centrality/DegreeCentrality_impl.hpp:89-91 | merging into an empty state gives the other state |
| Centrality.MergeEmptyOther | src/modules/centrality/DegreeCentrality_impl.hpp:92-93 | merging in an empty state leaves a bindable state as it was |
| Centrality.MergeNonEmpty | src/modules/centrality/DegreeCentrality_impl.hpp:95-96 | merging two non-empty states sums the row counts, keeps the vector length and adds element-wise, so the result is not bindable |
| Centrality.MergeLosesEdges | src/modules/centrality/DegreeCentrality_impl.hpp:95-96 | the states of [(1,2)] and [(3,4)] merge to 4 rows holding [4, 6], while the joined list's state is 4 rows [1, 2, 3, 4] |
| Centrality.AccumulateConcat | src/modules/centrality/DegreeCentrality_impl.hpp:85-98 | the concatenating merge of two lists' states is the state of the joined list, and it is bindable |
| Centrality.MergedConcatBindable | src/modules/centrality/DegreeCentrality_impl.hpp:95-96 | the concatenating merge of bindable states is bindable and holds both vectors' entries |
| Centrality.CentralityAccumulator.MergeConcat | src/modules/centrality/DegreeCentrality_impl.hpp:85-98 | the corrected in-place merge leaves the state MergedConcat describes |
| Centrality.PairEnd | src/modules/centrality/DegreeCentrality_impl.hpp:142-144 | the pair loop reads up to an even bound that is numRows or numRows + 1 |
| Centrality.BindableReadsInBounds | src/modules/centrality/DegreeCentrality_impl.hpp:142-144 | compute reads only stored entries of a bindable state |
| Centrality.MergedNotReadable | src/modules/centrality/DegreeCentrality_impl.hpp:95-96 | after a merge of two non-empty bindable states, compute would read past the stored endpoints |
| Centrality.DegreeCentrality.constructor | src/modules/centrality/DegreeCentrality_impl.hpp:113-117 | constructing from a state gives, as the code is written, every read endpoint as its own vertex with degree 1 |
| Centrality.DegreeCentrality.Aggregated | src/modules/centrality/DegreeCentrality_impl.hpp:113-117 | constructing with the corrected compute gives distinct vertices and the tally of every read endpoint |
| Centrality.DegreeCentrality.SearchPair | src/modules/centrality/DegreeCentrality_impl.hpp:145-156 | the scan of the first len vertices adds one to every entry matching v1 and to every entry matching v2 before it stops. It reports each found exactly when the scanned prefix contains it, and stops early only once both are found. It stops at the first entry where both have been seen, so the prefix before that entry lacks one of them |
| Centrality.DegreeCentrality.Compute | src/modules/centrality/DegreeCentrality_impl.hpp:131-167 | because len stays 0, compute appends every read endpoint, in order, to vertex, and a 1 per endpoint to degree |
| Centrality.DegreeCentrality.TallyPair | src/modules/centrality/DegreeCentrality_impl.hpp:145-164 | one pair with len set to the current vertex count makes the vertices and degrees Tally(Tally(old, v1), v2), and the vertices stay distinct. This departs from lines 157-164 for a self-loop on a new vertex: there the code would append v twice with degree 1, while TallyPair gives that one entry degree 2 |
| Centrality.DegreeCentrality.ComputeAggregated | src/modules/centrality/DegreeCentrality_impl.hpp:131-167 | the corrected compute leaves the tally of every read endpoint over the old vertices, which stay distinct |
| Centrality.IndexOf | src/modules/centrality/DegreeCentrality_impl.hpp:146-147 | gives the first position holding v |
| Centrality.IndexOfIs | src/modules/centrality/DegreeCentrality_impl.hpp:146-147 | a position holding v with no v before it is IndexOf |
| Centrality.DistinctIndex | src/modules/centrality/DegreeCentrality_impl.hpp:146-147 | in a distinct list, any position holding v is IndexOf |
| Centrality.TallyMeaning | src/modules/centrality/DegreeCentrality_impl.hpp:146-164 | tallying v keeps the vertices distinct, adds v to the vertex set, and raises the degree of v by one and no other degree |
| Centrality.TallyAllMeaning | src/modules/centrality/DegreeCentrality_impl.hpp:142-165 | tallying an endpoint list keeps the vertices distinct, makes the vertex set the old vertices plus the endpoints, and raises each vertex's degree by its number of occurrences |
| Centrality.TallyFromEmpty | src/modules/centrality/DegreeCentrality_impl.hpp:142-165 | from no vertices, each vertex's degree is its number of occurrences among the endpoints |
| Centrality.TallyPresent | src/modules/centrality/DegreeCentrality_impl.hpp:147-149 | tallying a present vertex among distinct ones raises exactly its entries |
| Centrality.BumpedAbsent | src/modules/centrality/DegreeCentrality_impl.hpp:147-153 | a vertex that is absent leaves the degrees unchanged |
| Centrality.FoundMeansPresent | src/modules/centrality/DegreeCentrality_impl.hpp:146-156 | when the scan covers the whole list or stops on success, found holds exactly when v is a vertex |
| Centrality.ScannedPast | src/modules/centrality/DegreeCentrality_impl.hpp:155 | with distinct vertices, an early stop has already passed v's entry |
| Centrality.SearchCountsAll | src/modules/centrality/DegreeCentrality_impl.hpp:146-156 | with distinct vertices, the early break does not matter: the scan raises the entry of v1 and of v2, and found matches presence |
| Centrality.TallyAllPair | src/modules/centrality/DegreeCentrality_impl.hpp:142-144 | the tally of the first i + 2 endpoints is the tally of the first i, then of data(i), then of data(i+1) |
| Centrality.ComputeDuplicatesVertex | src/modules/centrality/DegreeCentrality_impl.hpp:141-164 | as written, the edges (1,2), (1,3) give vertex [1,2,1,3] with degree [1,1,1,1], not distinct |
| Centrality.TallyExample | src/modules/centrality/DegreeCentrality_impl.hpp:141-164 | as intended, the same endpoints tally to vertices [1,2,3] with degrees [2,1,1] |
| Centrality.DegreeFinal | src/modules/centrality/degree.cpp:243-260 | the final step gives NULL exactly for an empty state; otherwise it gives numRows pairs (data(i), 1) |
| Centrality.TallySize | src/modules/centrality/DegreeCentrality_impl.hpp:157-164 | tallying an endpoint list adds at most one vertex per endpoint |
| Centrality.TallyRepeatShrinks | src/modules/centrality/degree.cpp:257-258 | an endpoint that occurs twice leaves fewer vertices than endpoints, so the corrected result cannot be read for i < numRows |
| Centrality.DegreeFinalAggregated | src/modules/centrality/degree.cpp:243-260 | the corrected final step gives NULL exactly for an empty state; otherwise it gives one pair per distinct vertex, whose degree is its number of occurrences among the endpoints |
| CountMin.Pow2 | methods/sketch/src/extended_sql/pg_gp/countmin.h:15-18 | a power of two is at least 1 |
| CountMin.ArithShiftRight | methods/sketch/src/extended_sql/pg_gp/countmin.h:15-18 | an arithmetic right shift by k is the floor of x / 2^k |
| CountMin.Pow2Literals | methods/sketch/src/extended_sql/pg_gp/countmin.h:15-18 | the powers of two the 64-bit domain needs, as literals |
| CountMin.DomainConstants | methods/sketch/src/extended_sql/pg_gp/countmin.h:14-18 | MAXVAL = 2^62 - 1, MIDVAL = 2^61 - 1 and MINVAL = -2^62, ordered, with MINVAL = -MAXVAL - 1, and the domain holds 2^(RANGES-1) values |
| CountMin.Min | methods/sketch/src/extended_sql/pg_gp/countmin.h:11 | the result is one of the two arguments and not above either |
| CountMin.Incr | methods/sketch/src/extended_sql/pg_gp/countmin.h:113-119 | counting a key adds one to its hashed counter in each row and changes no other counter |
| CountMin.RowsMin | methods/sketch/src/extended_sql/pg_gp/countmin.h:113-120 | the running minimum over the first n rows is at most the start value and every row's hashed counter, and equals one of them |
| CountMin.Estimate | methods/sketch/src/extended_sql/pg_gp/countmin.h:113-120 | the estimate is at most every row's hashed counter for the key, and equals one of them |
| CountMin.RowsMinIsEstimate | methods/sketch/src/extended_sql/pg_gp/countmin.h:113-120 | a minimum over all rows from any start value is the smaller of that value and the estimate |
| CountMin.EstimateAfterIncr | methods/sketch/src/extended_sql/pg_gp/countmin.h:113-119 | counting a key raises its own estimate by exactly one |
| CountMin.EstimateMonotone | methods/sketch/src/extended_sql/pg_gp/countmin.h:113-119 | counting any key never lowers another key's estimate |
| CountMin.InsertAll | methods/sketch/src/extended_sql/pg_gp/countmin.h:20-25 | counting a stream from all zeros gives a DEPTH x NUMCOUNTERS matrix whose counters lie between 0 and the stream length |
| CountMin.CounterIsHashCount | methods/sketch/src/extended_sql/pg_gp/countmin.h:20-25 | after a stream, each counter is the number of stream keys hashed to it in its row |
| CountMin.OccurrencesBelowHashCount | methods/sketch/src/extended_sql/pg_gp/countmin.h:20-25 | the occurrences of a key are at most the keys hashed to its counter |
| CountMin.NeverUndercount | methods/sketch/src/extended_sql/pg_gp/countmin.h:20-25 | the estimate after a stream is never below the key's true count |
| CountMin.IncrementCounter | methods/sketch/src/extended_sql/pg_gp/countmin.h:119 | increment_counter raises one counter by one, leaves the rest, and returns the smaller of the new value and the running value |
| CountMin.MinCounter | methods/sketch/src/extended_sql/pg_gp/countmin.h:120 | min_counter changes nothing and returns the smaller of the counter and the running value |
| CountMin.HashCountersIterate | methods/sketch/src/extended_sql/pg_gp/countmin.h:112-120 | iterating with increment counts the key in every row and returns the minimum of the start value and the new estimate; with min it changes nothing and returns the minimum of the start value and the estimate |
| DyadicRanges.Cover | methods/sketch/src/extended_sql/pg_gp/countmin.h:109 | splitting a range inside a node gives at least one span |
| DyadicRanges.Decompose | methods/sketch/src/extended_sql/pg_gp/countmin.h:108 | an empty range gives no spans |
| DyadicRanges.TilesConcat | methods/sketch/src/extended_sql/pg_gp/countmin.h:40-44 | tilings of two adjacent ranges join into a tiling of their union |
| DyadicRanges.CoverTiles | methods/sketch/src/extended_sql/pg_gp/countmin.h:108-109 | the spans of a node's split tile the requested range |
| DyadicRanges.TilesMeaning | methods/sketch/src/extended_sql/pg_gp/countmin.h:40-44 | tiling spans are ascending, disjoint and inside the range, and a value is in some span exactly when it is in the range |
| DyadicRanges.DecomposeTiles | methods/sketch/src/extended_sql/pg_gp/countmin.h:40-44 | the decomposition of a range tiles it: disjoint spans whose union is the range |
| DyadicRanges.CoverDyadic | methods/sketch/src/extended_sql/pg_gp/countmin.h:40-44 | every span of a node's split is an aligned power-of-two block |
| DyadicRanges.DecomposeDyadic | methods/sketch/src/extended_sql/pg_gp/countmin.h:40-44 | every span of the decomposition is dyadic, at a level below LONGBITS |
| DyadicRanges.SuffixCount | methods/sketch/src/extended_sql/pg_gp/countmin.h:46 | a split that ends at a node's top needs at most k spans when its width is below 2^k |
| DyadicRanges.PrefixCount | methods/sketch/src/extended_sql/pg_gp/countmin.h:46 | a split that starts at a node's base needs at most k spans when its width is below 2^k |
| DyadicRanges.CoverCount | methods/sketch/src/extended_sql/pg_gp/countmin.h:46 | any split needs at most 2k spans when its width is below 2^k |
| DyadicRanges.DecomposeFits | methods/sketch/src/extended_sql/pg_gp/countmin.h:45-48 | a range of width up to MAX_WIDTH needs at most LONGBITS spans, so it fits spans[LONGBITS] |
| DyadicRanges.CoverStraddle | methods/sketch/src/extended_sql/pg_gp/countmin.h:109 | a range meeting both halves of a node is split at the node's midpoint |
| DyadicRanges.SuffixExact | methods/sketch/src/extended_sql/pg_gp/countmin.h:46 | a node without its first key needs exactly one span per level |
| DyadicRanges.PrefixExact | methods/sketch/src/extended_sql/pg_gp/countmin.h:46 | a node without its last key needs exactly one span per level |
| DyadicRanges.NodeInterior | methods/sketch/src/extended_sql/pg_gp/countmin.h:46 | a node of power p without its first and last keys needs exactly 2(p - 1) spans |
| DyadicRanges.UpperNode | methods/sketch/src/extended_sql/pg_gp/countmin.h:15-18 | the upper half of the root is the node [0, MAXVAL] |
| DyadicRanges.DecomposeUpper | methods/sketch/src/extended_sql/pg_gp/countmin.h:108 | a range of non-negative keys is split inside the root's upper half |
| DyadicRanges.DomainRangeOverflows | methods/sketch/src/extended_sql/pg_gp/countmin.h:45-48 | the domain range [1, MAXVAL - 1] needs 122 spans, more than the LONGBITS rows of spans |
| DyadicRanges.DocumentedExample | methods/sketch/src/extended_sql/pg_gp/countmin.h:43 | 14..48 becomes [14,15], [16,31], [32,47], [48,48] |
| DyadicRanges.ExampleLeft | methods/sketch/src/extended_sql/pg_gp/countmin.h:43 | 14..31 becomes [14,15], [16,31] |
| DyadicRanges.ExampleRight | methods/sketch/src/extended_sql/pg_gp/countmin.h:43 | 32..48 becomes [32,47], [48,48] |
| DyadicRanges.RangeList.constructor | methods/sketch/src/extended_sql/pg_gp/countmin.h:45-48 | a new rangelist is empty, with its cursor at 0 |
| DyadicRanges.RangeList.AddRange | methods/sketch/src/extended_sql/pg_gp/countmin.h:45-48 | storing a span at emptyoffset appends it to the contents and advances the cursor |
| DyadicRanges.FindRangesInternal | methods/sketch/src/extended_sql/pg_gp/countmin.h:109 | the recursive split appends Cover's spans to the rangelist |
| DyadicRanges.FindRanges | methods/sketch/src/extended_sql/pg_gp/countmin.h:108 | the rangelist ends up holding exactly the decomposition of lo..hi |
| SketchLayout.NewCmTransval | methods/sketch/src/extended_sql/pg_gp/countmin.h:31-35 | a new cmtransval holds RANGES zeroed counter matrices and the type oids |
| SketchLayout.CmTransvalSz | methods/sketch/src/extended_sql/pg_gp/countmin.h:38 | CM_TRANSVAL_SZ is at least sizeof(cmtransval) |
| SketchLayout.MfvTransvalSz | methods/sketch/src/extended_sql/pg_gp/countmin.h:88 | MFV_TRANSVAL_SZ(i) is the header plus the end of i slots, and grows with i |
| SketchLayout.MfvWellFormed | methods/sketch/src/extended_sql/pg_gp/countmin.h:60-94 | a well-formed transval lies in a blob of at least MFV_TRANSVAL_SZ(num_mfvs) bytes |
| SketchLayout.MfvTransvalCapacity | methods/sketch/src/extended_sql/pg_gp/countmin.h:91 | in a well-formed transval the free space is non-negative, and the header, next_offset and the free space add up to the blob size |
| SketchLayout.MfvTransvalGetval | methods/sketch/src/extended_sql/pg_gp/countmin.h:94 | in a well-formed transval, a used slot's value lies after the slot array and inside the blob |
| SketchLayout.PlaceValue | methods/sketch/src/extended_sql/pg_gp/countmin.h:78-84 | storing a value uses the next slot and keeps the slot count |
| SketchLayout.PlaceValueLayout | methods/sketch/src/extended_sql/pg_gp/countmin.h:60-94 | storing a value that fits the free space keeps the transval well formed. The new slot points at the old next_offset with its count, earlier slots are unchanged, and the free space shrinks by the value's size |
| SketchLayout.NewMfvTransval | methods/sketch/src/extended_sql/pg_gp/countmin.h:71-85 | a new mfvtransval has num_mfvs slots and none used |
| SketchLayout.NewMfvLayout | methods/sketch/src/extended_sql/pg_gp/countmin.h:88-91 | a blob of MFV_TRANSVAL_SZ(n) + extra bytes holding a new transval is well formed, with exactly extra bytes free |

## Left out

- The bodies of `find_ranges`, `find_ranges_internal`, `hash_counters_iterate`, `increment_counter` and `min_counter` live in countmin.c, which is not part of this model. The header gives only their prototypes and the 14..48 example. The model reconstructs them: a segment-tree split of `[MINVAL, MAXVAL]`, and per-row increment and minimum passes. Their contracts state what the header and the data structures promise.
- The hash function behind each row is a parameter, `RowHash`: any function from row and key into `[0, NUMCOUNTERS)`. Postgres datum hashing is not modelled.
- DyadicRanges.FindRanges: requires the range to lie in `[MINVAL, MAXVAL]` and to be at most MAX_WIDTH = 2^32 - 1 wide, so that its spans fit `spans[LONGBITS]`. The header does not say how wider ranges are handled. `DomainRangeOverflows` shows that the reconstructed split needs 122 spans for `[1, MAXVAL - 1]`. If the find_ranges in countmin.c splits this way without a width check, it writes past `spans`. That body is not part of this model, so this possible overflow is unverified and is not listed as a finding.
- DyadicRanges.FindRangesInternal: takes the node's base as an extra argument besides the node's power. The prototype `find_ranges_internal(int64, int64, int, rangelist *)` has no base argument, so the C code must derive the node another way. This is part of the reconstruction.
- DyadicRanges.FindRanges: starts from an empty list, setting the cursor to 0, rather than appending to a partly filled rangelist.
- DyadicRanges.Decompose: the decomposition is proved to be a dyadic tiling and to fit the buffer, but not to be the fewest possible spans.
- Counters are unbounded integers. 64-bit overflow of an `int64` counter is not modelled.
- The degree aggregate models the accumulator's `numRows` and the vertex ids as unbounded integers. The source's 32-bit `int` endpoints, `uint64` row count and double-valued Eigen storage are not modelled.
- Centrality.CentralityAccumulator.Merge: requires `MergeDefined`, which excludes two non-empty states of different lengths. There, Eigen's `+=` at line 96 of DegreeCentrality_impl.hpp adds vectors of different sizes, which is an assertion failure or undefined behaviour. `MergeDefinedAccumulate` shows these are exactly the states of two non-empty edge lists with different numbers of edges, the ordinary case for two partitions. The corrected `MergeConcat` has no such requirement.
- `degcent_transition` (degree.cpp lines 65-87) is a no-op: its call `state << tuple_type(v1, v2)` is commented out and it returns the state unchanged. As shipped, the aggregate therefore never appends an edge. The model covers the `operator<<(tuple)` that the call would reach, not the no-op.
- `isfinite` checks on integer endpoints always pass, so they are left out. The storage work (`bind`, `rebind`, `resize`, `copy`) and the postgres calls in `degcent_merge_states` and `degcent_final` (argument fetching, `elog`) are left out as I/O. `DegreeCentrality_proto.hpp` contributes only declarations.
- Centrality.DegreeCentrality.TallyPair: for a self-loop on a vertex not yet listed, it gives one entry of degree 2. Lines 157-164 with a working len would append the vertex twice with degree 1 each.
- Centrality.DegreeFinal models the final loop over `i < numRows`. With the corrected compute this loop would read past `vertex` whenever an endpoint repeats (`TallyRepeatShrinks`). The corrected `DegreeFinalAggregated` runs over the vertices instead.
- The MFV operations (`mfv_transval_insert`, `mfv_transval_replace`, `mfv_transval_insert_at`, `cnt_cmp_desc`) and the other countmin operations (`countmin_trans_c`, `countmin_dyadic_trans_c`, `cmsketch_rangecount_c`, `cmsketch_centile_c`, the histograms, `cmsketch_getcount_c`) are declared in the header but defined in files that are not part of this model. So are the SQL entry points (`cmsketch_trans` and the rest).
- The `sizeof` values and `VARHDRSZ` are parameters, a `Sizes` record. Text datums behind the MFV offsets are reached only as offsets. Oids are naturals. `PlaceValue` is the layout convention the header describes for a stored value. It is not a model of `mfv_transval_insert`, whose body is not part of this model.

## Findings

| source | as written | input that shows it | evidently intended | confidence | as-written member | corrected member |
|---|---|---|---|---|---|---|
| src/modules/centrality/DegreeCentrality_impl.hpp:141-164 | `len` starts at 0 and is never increased, so the search loop never runs; every endpoint is appended as a new vertex with degree 1 | edges (1,2), (1,3) give vertex [1,2,1,3] and degree [1,1,1,1] | each vertex listed once, with its degree the number of its endpoints: [1,2,3] with [2,1,1] | not executed | Centrality.ComputeDuplicatesVertex | Centrality.DegreeCentrality.ComputeAggregated |
| src/modules/centrality/DegreeCentrality_impl.hpp:95-96 | merging two non-empty states sums the row counts but adds the endpoint vectors element-wise; for edge lists of different lengths the add is not even defined (MergeDefinedAccumulate) | the states of [(1,2)] and [(3,4)] merge to 4 rows holding [4,6]; the states of [(1,2)] and [(3,4),(5,6)] cannot be added | append the other state's endpoints: 4 rows holding [1,2,3,4] | not executed | Centrality.MergeLosesEdges | Centrality.AccumulateConcat |
