# Isolation Forest: a Dafny model of the tree construction and the ensemble

This project models the core of `iforest`, a Rust implementation of the
Isolation Forest anomaly detector. The model covers two files:

- `src/node.rs`: the tree node type (`Internal` / `Terminal`), the recursive
  construction `build_isolation_tree`, and the traversal `path_len`.
- `src/forest.rs`: the `IsolationForest` ensemble with `new`, `fit`,
  `get_random_subsample`, `score`, `score_instance` and `avg_path_len`.

Feature values are exact reals. The random generator is an oracle.

Files:

- `wrappers.dfy`: the `Option` type.
- `random.dfy`: the generator `Random.Rng`. It is a class whose two draws
  promise only that the value lies in the requested range. Every draw is
  appended to a ghost `trace`, so contracts can name exactly which draws an
  operation consumed, and in which order.
- `node.dfy`: the tree.
  - `Node.Grow` is a pure function. It gives the tree that construction
    produces from a given list of draws, taken in the order feature,
    threshold, left subtree, right subtree.
  - The imperative `Node.BuildIsolationTree` is proved to consume exactly
    such a list from the generator and to return `Grow`'s tree.
  - The min/max loop and the partition loop are methods. Each is proved
    equal to a specification function (`ColumnMin`/`ColumnMax`, `Side`),
    and lemmas state what those functions mean.
- `forest.dfy`: the ensemble `Forest.IsolationForest`. It is a class with the
  tree list as a mutable field.
  - `Fit` clears it and appends one tree per round.
  - `GetRandomSubsample` is the rejection-sampling loop.
  - The ghost predicate `Fitted` ties each tree to the round that produced
    it: the subsample drawn (`SampleFrom`) and the construction draws
    (`Grow`).
  - Scoring is a set of pure functions over the tree list.

The correction `c(n)` is `Node.C(n, estimate)`. It is 0 for `n <= 1` and
otherwise calls an uninterpreted parameter `estimate`. The score transform
`2^(-a / c)` is the parameter `normalize` of `ScoreInstance`.

## Model

| member | source | states |
|---|---|---|
| Random.Rng.constructor | src/forest.rs:17-20 | a freshly seeded stream has drawn nothing yet |
| Random.Rng.RandomRange | src/node.rs:85 | the index drawn lies in `[lo, hi)` and is appended to the stream's trace |
| Random.Rng.RandomReal | src/node.rs:105 | the threshold drawn lies in `[lo, hi]` and is appended to the stream's trace |
| Node.C | src/node.rs:51-59 | no correction (0) for a leaf of at most one point; otherwise the estimate of the average path length for that many points |
| Node.PathLen | src/node.rs:24-47 | the path length is the running length plus the number of splits on the point's route plus `c` of the size of the leaf reached |
| Node.Leaf | src/node.rs:24-47 | routing a point always ends at a terminal node |
| Node.SmallLeafNoCorrection | src/node.rs:27-30 | at a terminal node holding at most one point, the path length is the running length, because `c` is 0 there |
| Node.PathLenShift | src/node.rs:24-47 | `path_len(x, k) == k + path_len(x, 0)` |
| Node.PathLenAtLeaf | src/node.rs:24-47 | in a tree whose depths are consistent, `path_len(x, k)` is `k` plus the edges from the root to the leaf reached plus `c` of that leaf's size |
| Node.ColumnBounds | src/node.rs:87-94 | every row's value of the feature lies between the column minimum and maximum |
| Node.ColumnAttained | src/node.rs:87-94 | both extremes are values that some row actually has |
| Node.FeatureRange | src/node.rs:87-94 | the loop's results are the column minimum and maximum: every row lies between them and each is attained |
| Node.SideSigns | src/node.rs:111-117 | every row on the left has `row[f] < v`; every row on the right has `row[f] >= v` |
| Node.SidesPartition | src/node.rs:108-117 | the two sides together hold every row exactly once (as multisets), so `|left| + |right| == |data|` |
| Node.SideEmpty | src/node.rs:120 | a side is empty exactly when no row falls on it |
| Node.SideEmptyCases | src/node.rs:119-125 | for a threshold in `[min, max]`, the right side is never empty, and the left side is empty exactly when the threshold equals the minimum |
| Node.Partition | src/node.rs:107-117 | the loop's two vectors are the left and right sides of the split, each in input order |
| Node.SideRows | src/node.rs:111-117 | every row on a side is a row of the input |
| Node.SideBuildable | src/node.rs:128-140 | each side of equal-width rows is again a valid input for construction one level down |
| Node.GrowExtend | src/node.rs:62-150 | construction uses a prefix of the stream: extra draws appended after the ones it consumes come back untouched |
| Node.GrowConstantFeature | src/node.rs:96-102 | a constant feature stops construction after the single feature draw, with a terminal of full size at the current depth |
| Node.GrowEmptySide | src/node.rs:119-125 | a threshold that empties a side stops construction after two draws, with a terminal of full size at the current depth |
| Node.GrowSplits | src/node.rs:127-149 | a split whose sides are built from their own draws yields the internal node over the left and then the right subtree; the draws are feature, threshold, left draws, right draws |
| Node.BuildIsolationTree | src/node.rs:62-150 | appends to the trace exactly the draws it consumes, in order, and returns the tree `Grow` assigns to them; with at most one row or at the height limit it returns `Terminal(|data|, depth)` without drawing |
| Node.GrowSizes | src/node.rs:74-125 | terminal sizes of a built tree add up to the number of input rows; every internal node's children each hold at least one row, so each holds fewer than its parent |
| Node.GrowDepths | src/node.rs:128-149 | every child is one level below its parent; built from a depth within the limit, no node lies below the limit and no internal node lies at it |
| Node.ConstantDataTerminal | src/node.rs:96-102 | on identical rows, construction returns one terminal node holding them all |
| Forest.CeilLog2Bounds | src/forest.rs:22 | the height limit is the least `k` with `n <= 2^k`, for `n >= 1` |
| Forest.KeepNew | src/forest.rs:63-69 | the kept indices are pairwise distinct and are exactly the values drawn |
| Forest.SampleShape | src/forest.rs:53-73 | a subsample has `min(subsample_size, |data|)` rows; each is a row of the data at a distinct, in-range index: `sample[i] == data[indices[i]]` |
| Forest.SampleBuildable | src/forest.rs:37-45 | a subsample of valid input is valid input for construction |
| Forest.PicksUnique | src/forest.rs:63-69 | the stopping rule makes a round's draws a function of the stream: the round stops at the first draw that completes the index set |
| Forest.GrowthUnique | src/node.rs:62-150 | two constructions of the same subsample that read the same stream consume the same draws and build the same tree |
| Forest.IsolationForest.constructor | src/forest.rs:16-31 | empty ensemble, configuration stored, `max_tree_height == ceil(log2(subsample_size))`, an unused stream |
| Forest.IsolationForest.GetRandomSubsample | src/forest.rs:53-73 | returns the data unchanged, drawing nothing, when the subsample size reaches its size; otherwise returns the rows at the first `k` distinct draws, each in range, with the loop invariant "distinct, in range, at most `k`" |
| Forest.IsolationForest.Fit | src/forest.rs:33-50 | replaces the ensemble: `complete` holds exactly when it ends with `num_trees` trees; each tree was built from depth 0 with `max_tree_height` on one subsample of this fit; the trace grows by exactly these rounds' draws |
| Forest.IsolationForest.AvgPathLen | src/forest.rs:95-108 | 0 for an empty ensemble; otherwise the mean of `path_len(x, 0)` over the trees (mean times count equals the sum) |
| Forest.IsolationForest.ScoreInstance | src/forest.rs:83-92 | the score is `normalize` (2^(-a/c)) of the mean path length over the trees, or of 0 for an empty ensemble, against `c` of the configured subsample size |
| Forest.IsolationForest.Score | src/forest.rs:76-80 | one score per point, in order: `score[i] == score_instance(data[i])` |
| Forest.FittedTreeShape | src/forest.rs:40-45 | a fitted tree accounts for all `min(subsample_size, |data|)` rows of its subsample, splits properly, respects the height limit, and gives each point the path length "leaf depth plus that leaf's correction" |
| Forest.LeafWithinHeight | src/node.rs:74-79 | the leaf a point reaches lies at most at the height limit |
| Forest.IdenticalPointsTerminalRoot | src/forest.rs:37-45 | on a data set of identical points, every fitted tree is a single terminal root holding the whole subsample |
| Forest.SumWithin | src/forest.rs:101-105 | the sum of `n` path lengths, each in `[lo, hi]`, lies in `[n lo, n hi]` |
| Forest.AvgWithin | src/forest.rs:95-108 | the mean path length lies between the least and the greatest path length over the trees |
| Forest.TerminalForestUniformScore | src/forest.rs:83-92 | a forest of single terminal nodes gives every point the same score |
| Forest.IdenticalDataUniformScore | src/forest.rs:83-92 | after a fit on a data set of identical points, every point gets the same score, namely `normalize(c(m), c(subsample_size))` with `m = min(subsample_size, |data|)` (or `normalize(0, c(subsample_size))` for an empty ensemble) |
| Forest.FitDeterministic | src/forest.rs:33-50 | fits over the same data that read the same stream build the same trees |

## Left out

- Floating point: feature values are exact reals. `f64::min`/`f64::max`, NaN and infinity routing, and the rounding of `(max - min).abs() < EPSILON` are not modelled. `EPSILON` itself is the exact value 2^-52.
- Path lengths, their sum over the trees and their mean are exact reals too. The f64 rounding of `curr_len as f64 + c(size)`, of the running sum and of the division by the tree count is not modelled. Forest.AvgWithin therefore holds for the exact mean only: an f64 mean of equal path lengths can round above the largest of them.
- The numeric body of `c` (`ln`, Euler's constant) is not modelled: it is the parameter `estimate`, constrained only by `c(n) == 0` for `n <= 1`. The `powf` score transform is the parameter `normalize`.
- `max_tree_height` is the exact integer ceiling of log2. The float computation can differ from it for sizes above about 2^48: `log2(2^49 + 1)` rounds to 49.0 in f64, where the exact ceiling is 50. For size 0 the saturating cast gives 0, and so does `CeilLog2(0)`.
- The min/max loop starts from the first row rather than from plus/minus infinity. The results are the same whenever there is a row, and construction only reaches the loop with at least two rows.
- Node.BuildIsolationTree requires rows of equal width, with at least one feature when a split is attempted. With ragged rows the source may index out of bounds, and with no features `random_range(0..0)` would panic; these panic paths are not modelled.
- Node.PathLen, Node.Leaf, Forest.IsolationForest.AvgPathLen, Forest.IsolationForest.ScoreInstance and Forest.IsolationForest.Score require the point to have every feature a split on its route looks at (`Routable`, `Scorable`). On a point that is too short the source panics at `instance[*split_feature]` (node.rs:40); this panic path is not modelled.
- Forest.IsolationForest.GetRandomSubsample takes a `fuel` bound on the number of draws and returns None when it runs out. The source loops until it has enough distinct indices, which for a real generator ends with probability 1 but not for every oracle.
- Forest.IsolationForest.Fit stops at the first subsample that runs out of fuel. It then returns `complete == false` with fewer trees and does not state the trace. When every round's subsample completes within the fuel, and always when the subsample size reaches the data size, it appends all `num_trees` trees. An oracle that keeps repeating one index never completes a round, whatever the fuel.
- `StdRng` and OS entropy: the generator is a stand-in with an opaque state. Entropy is a constructor parameter. Only its range contracts are relied on, so seeded reproducibility is stated abstractly, as Forest.FitDeterministic.
- `Vec::with_capacity` is an allocation hint and has no model.
- Probabilistic claims are not modelled: uniform subsamples, expected running time, and outliers scoring highest.
- `src/main.rs` (the demo that prints scores) is not part of this model.

The right-side emptiness check of `build_isolation_tree` (node.rs:120) never fires for a threshold drawn from `[min, max]`. Node.SideEmptyCases shows this: the maximum row always lands on the right. The model keeps the check, as the source does.
