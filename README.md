# RefinementTree in Dafny

A model of the adaptive regression-tree engine in `src/RefinementTree.cpp`.
The engine keeps a forest of binary partition trees, one tree per label, in a
single growable node arena. A sorted label index (`_mapping`) maps each label
to the arena index of its root. The model covers:

- `lookup`: the statistics of the leaf a label's tree routes a point to, with
  the `(NaN, 0, 0)` sentinel for an unknown label;
- `getBestQ`: the least or greatest finite leaf value at a point, over every
  label or over a sorted candidate list merged against the index;
- `update`: registering an unseen label with a fresh root inserted at the
  lower-bound position, descending to a leaf, and `node_t::update` on that leaf;
- `node_t::get_leaf`: descent, low on `<=`, high otherwise;
- `node_t::update`:
  - the learning-rate cap;
  - the per-dimension low/high partition and split filter feed;
  - the reservoir-sampled choice of the split dimension;
  - the split itself: two children appended, seeded from the partition
    statistics, and the leaf turned into a split node;
  - otherwise, the midpoint rebalancing and the filter reset.

Modules and files:

- `stats.dfy` (`Stats`): averages, value statistics, split filters and the
  per-dimension record. Their floating-point kernels come in through `StatOps`.
- `arena.dfy` (`Arena`): nodes, arena well-formedness, and `GetLeaf`.
- `leaf.dfy` (`Leaf`): `node_t::update` as functions of the arena before the
  call (`LeafUpdated` and its parts), with the lemmas about them. It also holds
  the loops of the update as methods proved against those functions
  (`SampleLeaf`, `ScanDimensions`, `Rebalance`).
- `fairness.dfy` (`Fairness`): why the random choice of the split dimension
  has no bias. It counts the residue vectors of the draws under which each
  qualifying dimension is chosen.
- `index.dfy` (`Index`): the sorted label index, sorted insertion and the
  lower-bound search.
- `tree.dfy` (`Tree`): the class `RefinementTree`. Its `nodes` and `mapping`
  fields are the arena and the index; its methods are `Lookup`, `GetBestQ`,
  `Update`, `UpdateLeaf` and `SplitLeaf`. Each state-changing method is proved
  equal to a function of the old state (`TreeUpdated`, `LeafUpdated`,
  `SplitAt`), and the lemmas about those functions state the invariants.

Sample counts are unbounded naturals. Halving a count is floor division (see
"Left out"). Means are modelled as
reals, or as `Double` (finite, plus or minus infinity, or NaN) where the
source tests for infinity and NaN. `std::rand` is a parameter: `rand(c)` is
the draw made for the c-th qualifying dimension of one update.

## Model

| member | source | states |
|---|---|---|
| Stats.Merge | src/RefinementTree.cpp:393-394 | `avg_t += avg_t`: counts add. A stream without samples contributes nothing. When both streams have samples, the merged mean lies between the two means. |
| Stats.WeightedMean | src/RefinementTree.cpp:393-394 | The count-weighted mean of two streams with samples lies between the two means. |
| Stats.AddPoint | src/RefinementTree.cpp:309 | `avg_t += double` adds one sample. The first sample becomes the mean. |
| Stats.Observe | src/RefinementTree.cpp:301 | `qvar_t += double` counts exactly one more value. |
| Arena.GetLeaf | src/RefinementTree.cpp:200-206 | Descent ends at an unsplit node at or after the start index. It terminates because children lie after their parent. |
| Arena.BoundaryGoesLow | src/RefinementTree.cpp:202-203 | A point exactly on a split boundary descends into the low child. |
| Arena.GetLeafAppend | src/RefinementTree.cpp:346-347 | Appending nodes to the arena leaves every descent from an existing node unchanged. |
| Arena.AppendFresh | src/RefinementTree.cpp:118-119 | Appending a default node keeps the arena well formed. |
| Leaf.Prepared | src/RefinementTree.cpp:296-302 | Data is allocated only when absent, with one record per dimension. The value count is capped at `q_learn_rate` before the new value is added, so it ends at `min(cnt, rate) + 1`. The sample count goes up by exactly one. |
| Leaf.Partition | src/RefinementTree.cpp:305-313 | The sample goes to the low partition (`lowq`, `lmid`) iff its coordinate is at most the midpoint average, and otherwise to the high one. One side gains exactly one sample and the other is unchanged. The chosen side's value statistics observe the value `nval` (lines 308 and 311), and its coordinate statistics gain the coordinate. |
| Leaf.Refresh | src/RefinementTree.cpp:305-322 | Definition, with no contract of its own: one dimension's partition (`Partition`) followed by the split filter's `add` on the new partition statistics, with the arguments `delta * indefference`, `lower_t`, `upper_t`, `ks_limit` and `filter_rate`. |
| Leaf.RefreshAll | src/RefinementTree.cpp:304-322 | Definition, with no contract of its own: `Refresh` applied to every dimension with that dimension's coordinate. `ScanDimensions` is proved equal to it. |
| Leaf.Sampled | src/RefinementTree.cpp:296-322 | After sampling, the leaf holds one data record per coordinate of the point. |
| Leaf.Reservoir | src/RefinementTree.cpp:324-331 | Definition, with no contract of its own: the dimension loop's counter and `svar`. The c-th qualifying dimension takes the choice when the c-th draw is divisible by c. Its promises are `ReservoirCount`, `ReservoirLastHit`, `ReservoirSingle` and `Fairness.ChoiceUnbiased`. |
| Leaf.ReservoirCount | src/RefinementTree.cpp:324-331 | The reservoir counts every qualifying dimension. Whenever there is at least one, it chooses a qualifying dimension. |
| Leaf.ReservoirLastHit | src/RefinementTree.cpp:326-330 | The chosen dimension is the last candidate whose draw was divisible by its rank. No later candidate had such a draw. |
| Leaf.ReservoirSingle | src/RefinementTree.cpp:326-330 | With exactly one qualifying dimension, that dimension is chosen, whatever the draws. |
| Leaf.Choice | src/RefinementTree.cpp:324-334 | The candidate count is zero exactly when no filter's `max()` reached `filter_val`. When it is positive, the split dimension is one whose filter reached `filter_val`. |
| Fairness.ReservoirWinner | src/RefinementTree.cpp:324-331 | The rank of the chosen dimension among the qualifying ones is the last rank k whose draw is divisible by k. So the choice depends only on the draws taken modulo their ranks. |
| Fairness.ReservoirPicks | src/RefinementTree.cpp:324-331 | A qualifying dimension is chosen iff the last zero residue of the draws falls at its rank. |
| Fairness.VectorsSize | src/RefinementTree.cpp:328 | There are c! residue vectors for c draws. |
| Fairness.VectorsDistinct | src/RefinementTree.cpp:328 | The enumeration of residue vectors lists none twice. |
| Fairness.VectorsResidues | src/RefinementTree.cpp:328 | Every enumerated vector has c entries, and its k-th entry is below k. |
| Fairness.VectorsComplete | src/RefinementTree.cpp:328 | Every vector whose k-th entry is below k is enumerated, so every possible sequence of draws is covered. |
| Fairness.EachRankWins | src/RefinementTree.cpp:324-331 | Of the c! residue vectors, each rank from 1 to c wins under exactly (c-1)! of them. |
| Fairness.ChoiceUnbiased | src/RefinementTree.cpp:324-331 | The random choice avoids bias, as the source's comment promises. With c qualifying dimensions, every qualifying dimension is chosen under exactly (c-1)! of the c! residue vectors the draws can produce, i.e. with probability 1/c for uniform draws. The draws of any `rand` form one of those vectors. |
| Leaf.ChildData | src/RefinementTree.cpp:350-362 | Definition, with no contract of its own: a child's per-dimension records. In the split dimension the midpoint is the parent's `lmid` (low child) or `hmid` (high child). Elsewhere it is the merge of both. Everything else is default. `SplitLeaf`'s loop is proved equal to it. |
| Leaf.Seed | src/RefinementTree.cpp:363-374 | A child whose partition saw no value gets the parent's mean, count one and variance zero, provided the parent has values. Otherwise it keeps the partition's statistics. A parent with values always yields a child with values. |
| Leaf.Corrected | src/RefinementTree.cpp:208-211 | Definition, with no contract of its own: `set_correction` keeps the correction when the variance is zero. Otherwise the correction comes from the solver parameter. |
| Leaf.SplitAt | src/RefinementTree.cpp:334-381 | Definition, with no contract of its own: the arena after the split of leaf n on dimension s. The leaf becomes `Split(s, midpoint, size, size + 1)` without data and with its correction updated, and the two seeded children are appended. Its promises are `SplitOutcome` and `DescentAfterLeafUpdate`. |
| Leaf.Skewed | src/RefinementTree.cpp:389-391 | Definition, with no contract of its own: the guard `mx >= 2 && 5^mn < mx && mx > midpoint count` over the partition counts. |
| Leaf.Recentre | src/RefinementTree.cpp:393-408 | Definition, with no contract of its own: the combined stream halved into `lmid` and `hmid`, merged into the midpoint, and the approximated value statistics with a halved count put in both `lowq` and `highq`. `Rebalanced` states its effect: the mean and count of `lmid`/`hmid`, and all of `lowq`/`highq`. |
| Leaf.Moved | src/RefinementTree.cpp:389-408 | Definition, with no contract of its own: a dimension is recentred when skewed and its combined average differs from the midpoint (the `continue` at 395-396). Otherwise it is unchanged. |
| Leaf.Rebalanced | src/RefinementTree.cpp:382-418 | A dimension is recentred iff `mx >= 2`, `5^mn < mx`, `mx > midpoint count`, and the combined average differs from the midpoint. A recentred dimension gets `lmid == hmid` with the combined stream's mean and half its count (lines 398-400), `lowq == highq` equal to `approximate`'s result with its count halved (lines 406-408), and the combined stream merged into the midpoint. Every filter is reset iff some dimension was recentred. Dimensions that were not recentred are otherwise unchanged. |
| Leaf.LeafUpdated | src/RefinementTree.cpp:294-419 | Definition, with no contract of its own: `node_t::update` on leaf n. The result is `SplitAt` when `Choice` counts a qualifying dimension, and otherwise the leaf with its sample counted and its data `Rebalanced`. Its promises are `SplitOutcome`, `NoSplitOutcome`, `LeafUpdateKeepsArena` and `DescentAfterLeafUpdate`. |
| Leaf.SplitOutcome | src/RefinementTree.cpp:334-381 | A split appends exactly two nodes. The split node records the chosen dimension, the midpoint boundary, `low = old size` and `high = old size + 1`, and loses its data. Both children have a value count above zero, with `_cnt == _q.cnt()`. Every other existing node is unchanged. |
| Leaf.NoSplitOutcome | src/RefinementTree.cpp:382-418 | Without a split the arena size is unchanged and no filter had reached `filter_val`. The leaf stays a leaf with its sample counted. Its data is the rebalanced data, and every other node is unchanged. |
| Leaf.LeafUpdateKeepsArena | src/RefinementTree.cpp:334-381 | A leaf update keeps children after their parent and inside the arena. Splits stay on existing dimensions, and data stays only on live leaves. |
| Leaf.DescentAfterLeafUpdate | src/RefinementTree.cpp:335-339 | After a split, a point that reached the split leaf reaches the new child on its side of the boundary. Every other descent from an existing node is unchanged. |
| Leaf.SampleLeaf | src/RefinementTree.cpp:296-331 | The imperative allocation, cap and count, then the dimension scan, equal `Sampled`. The returned count and dimension equal `Choice`. |
| Leaf.ScanDimensions | src/RefinementTree.cpp:305-331 | The loop over dimensions partitions and feeds every filter in place. Its counter and `svar` equal the reservoir over the qualifying flags. |
| Leaf.RebalancedCounts | src/RefinementTree.cpp:398-408 | When `approximate` adds the two counts, a recentred dimension splits its merged value count evenly: `lowq.cnt == highq.cnt == (lowq.cnt + highq.cnt) / 2` of the old counts. A dimension whose value counts matched its coordinate counts still matches them, and a recentred one keeps at least one value on each side. |
| Leaf.RefreshPairs | src/RefinementTree.cpp:305-313 | A sample goes to the same side of the value and coordinate statistics, so their counts stay paired. |
| Leaf.Rebalance | src/RefinementTree.cpp:385-417 | The recentring loop with its `rezero` flag, followed by the conditional reset loop, equals `Rebalanced`. |
| Index.RootOf | src/RefinementTree.cpp:69-71 | A label has a root iff it is in the index, and the root is that label's entry. |
| Index.RootAt | src/RefinementTree.cpp:69-72 | In a sorted index, the entry found at a position is the one the label resolves to. |
| Index.InsertSorted | src/RefinementTree.cpp:120 | Definition, with no contract of its own: the entry placed before the first label not below its own. `InsertSortedSpec` states its promises. |
| Index.InsertSortedSpec | src/RefinementTree.cpp:116-121 | Inserting an unseen label keeps the index strictly sorted and adds exactly that entry. It leaves every other label's root unchanged. |
| Index.InsertAtLowerBound | src/RefinementTree.cpp:116-120 | Inserting at the lower-bound position is the sorted insertion. |
| Index.LowerBound | src/RefinementTree.cpp:116 | `std::lower_bound`: every label before the result is smaller than the key, and every label from it on is not smaller. |
| Tree.TreeUpdated | src/RefinementTree.cpp:112-126 | Definition, with no contract of its own: `update`. `Register` the label, then `LeafUpdated` on the leaf its root routes the point to. Its promises are `TreeUpdateInvariant` and `LookupAfterUpdate`. |
| Tree.Register | src/RefinementTree.cpp:114-121 | An unseen label appends one default node and gets the old arena size as its root. A known label changes nothing. The index stays strictly sorted and gains exactly the label, and other labels keep their roots. |
| Tree.TreeUpdateInvariant | src/RefinementTree.cpp:112-126 | An update keeps the forest well formed: the index stays sorted, every root stays in range, and the arena stays linked and shaped. The index gains exactly the label. No existing root moves, and a new label's root is the old arena size. The arena only grows. |
| Tree.LookupAfterUpdate | src/RefinementTree.cpp:112-126 | When the leaf did not split, the point still reaches it after the update, with its count one higher and its value statistics after the capped count took the value. When it split, the point reaches the new child on its side of the boundary. |
| Tree.Step | src/RefinementTree.cpp:86-89 | Definition, with no contract of its own: one fold step of `getBestQ`. A finite value goes through `std::min` or `std::max` with the accumulator, and an infinite or NaN value is skipped. `StepBest` states its promise. |
| Tree.FoldLeaf | src/RefinementTree.cpp:84-89 | Descending from a root and folding the leaf's value is one `Step` with that label's leaf value. |
| Tree.SkipBelow | src/RefinementTree.cpp:96 | The inner loop advances past exactly the index labels below the candidate. It stops at the end or at the first label not below it. |
| Tree.StepBest | src/RefinementTree.cpp:86-89 | Folding a value through `std::min`/`std::max`, and skipping infinite and NaN values, keeps the accumulator the best finite value seen, or the sentinel. |
| Tree.AllStep | src/RefinementTree.cpp:83-90 | One index entry of the full scan keeps the accumulator best over the labels scanned so far. |
| Tree.CandidatePresent | src/RefinementTree.cpp:98-106 | A candidate found in the index folds in exactly that label's leaf value. |
| Tree.CandidateAbsent | src/RefinementTree.cpp:96-99 | A candidate that falls between two index entries adds no value. |
| Tree.CandidatesExhausted | src/RefinementTree.cpp:96-97 | Once the index is exhausted, no remaining candidate adds a value, so returning early is correct. |
| Tree.RefinementTree.constructor | src/RefinementTree.cpp:34-35 | A new tree has an empty arena and an empty index, and is valid. |
| Tree.RefinementTree.Lookup | src/RefinementTree.cpp:66-75 | An unknown label yields `(NaN, 0, 0)`. A known label yields the mean, sample count and variance of the leaf its tree routes the point to. Nothing is modified. |
| Tree.RefinementTree.GetBestQ | src/RefinementTree.cpp:77-110 | The result is the least (or greatest) finite leaf value over all labels, or over the labels in both the sorted candidate list and the index. It is `+inf` (or `-inf`) when there is none. |
| Tree.RefinementTree.BestOverAll | src/RefinementTree.cpp:81-91 | The loop over the whole index computes the best finite value over every label. |
| Tree.ScanCandidates | src/RefinementTree.cpp:92-108 | The merge scan with early return computes the best finite value over the candidates present in the index. |
| Tree.RefinementTree.BestOverCandidates | src/RefinementTree.cpp:92-108 | Over the tree's index and arena, the candidate branch of `getBestQ` computes the best finite value over the candidates present in the index. |
| Tree.RefinementTree.SplitLeaf | src/RefinementTree.cpp:334-381 | The in-place split produces the arena `SplitAt` describes: the split recorded on the leaf, two appends, the child data loop, seeding, then the leaf's correction and the release of its data. The index is untouched. |
| Tree.RefinementTree.UpdateLeaf | src/RefinementTree.cpp:294-419 | `node_t::update` on leaf n turns the arena into `LeafUpdated` of the old arena. The index and the dimension are untouched. |
| Tree.RefinementTree.Update | src/RefinementTree.cpp:112-126 | `update` turns the index and the arena into `TreeUpdated` of the old ones, records the dimension, and keeps the forest valid. |

## Left out

- `node_t::set_correction` (the glpk linear program) is the parameter
  `StatOps.correction`. The model keeps only the zero-variance early exit: with
  zero variance the correction is unchanged. The early exit when glpk cannot
  create a problem is part of the parameter. The solver, its slack layout and its
  objective weights are not modelled.
- `node_t::skewer`, `print`, `node_t::print` and the copy constructor are not
  modelled. They are incomplete code, output formatting and a plain copy.
- The floating-point kernels are parameters of `StatOps`:
  - `observe`: Welford's mean and variance step of `qvar_t += double`;
  - `approximate`: `qvar_t::approximate`;
  - `filterAdd` and `filterMax`: the split filter's `add` and `max`.

  The headers that define them are not part of this model. `qvar_t += double`
  counts exactly one more value (`Stats.Observe`). Everything else these
  operations compute, including the count `approximate` returns, comes from the
  parameters.
- The split filter's internal statistics (`SplitFilter.state`) are an opaque
  sequence of numbers. Only `filterAdd`, `filterMax` and `reset` act on them,
  and `reset` restores the default-constructed state. The three
  split-conditions inside the filter are not modelled.
- Leaf.Rebalanced: states a recentred dimension's value count as half the
  count `approximate` returns, as line 407 does. It does not state that this
  is half of `lowq.cnt + highq.cnt`, because the count `approximate` returns
  is defined outside this model. `Leaf.RebalancedCounts` proves the even split
  under the condition `Stats.MergesCounts`, which says `approximate` adds the
  two counts.
- `avg_t += avg_t` is modelled as the exact count-weighted mean over reals, with
  no rounding. The header that defines `avg_t` is not part of this model.
- `std::rand` is the parameter `rand`. The generator itself is not modelled.
- Fairness.ChoiceUnbiased: counts residue vectors. This is the choice's
  probability only if each draw modulo its rank is uniform and independent.
  `std::rand() % c` is not exactly uniform when `RAND_MAX + 1` is not a
  multiple of c, and the generator's distribution is not modelled.
- Leaf.Recentre: counts are naturals and `_cnt /= 2` is floor division. The
  headers that fix the count type of `avg_t` and `qvar_t` are not part of this
  model. If a count were a double, halving would keep the fraction, and this
  would affect the later `5^mn < mx` test and the cap at line 300.
- Doubles are reals, plus infinities and NaN where the source tests for them.
  Points with NaN coordinates are not modelled.
- Leaf.Skewed: `std::pow(5, mn) < mx` is compared exactly as integers.
  Rounding of `pow` for very large `mn` is not modelled.
- The `dimen` argument of `update` is taken to be the length of the point, and
  the arena is required to be shaped for that length. The source trusts every
  caller to pass the same dimension.
- The `_data` buffers and their swaps are modelled as sequence values held by
  the node. The model does not show buffer aliasing or the invalidation of
  `this` by `emplace_back`. The source avoids both by indexing through
  `nodes[org]`.
- Tree.RefinementTree.GetBestQ: requires the candidate list to be sorted, which
  the merge scan presumes of its caller. Its result is stated through the
  ghost predicate `IsBest` over the set of leaf values. `BestUnique` shows that
  this predicate determines the result.
- The `_dimen` field of `node_t` is not modelled. It is read only by
  `set_correction`.
