/**
 * The ensemble (src/forest.rs): an IsolationForest owns its trees, its
 * configuration and its random stream; fitting draws one subsample per tree
 * and builds a tree from it, scoring averages path lengths over the trees.
 */
module Forest {
  import opened Wrappers
  import opened Random
  import opened Node

  // ---------------------------------------------------------------------
  // The height limit
  // ---------------------------------------------------------------------

  function Pow2(k: nat): nat
  {
    if k == 0 then 1 else 2 * Pow2(k - 1)
  }

  /**
   * ceil(log2(n)) as an integer. For n == 0 the source computes
   * log2(0) = -infinity, which the saturating cast to usize turns into 0.
   */
  function CeilLog2(n: nat): nat
    decreases n
  {
    if n <= 1 then 0 else 1 + CeilLog2((n + 1) / 2)
  }

  /** CeilLog2(n) is the least k with n <= 2^k. */
  lemma {:induction false} CeilLog2Bounds(n: nat)
    requires n >= 1
    ensures n <= Pow2(CeilLog2(n))
    ensures CeilLog2(n) > 0 ==> Pow2(CeilLog2(n) - 1) < n
  {
    if n > 1 {
      var m := (n + 1) / 2;
      CeilLog2Bounds(m);
      assert CeilLog2(n) == 1 + CeilLog2(m);
      assert Pow2(CeilLog2(n)) == 2 * Pow2(CeilLog2(m));
    }
  }

  // ---------------------------------------------------------------------
  // Subsampling
  // ---------------------------------------------------------------------

  predicate Distinct(s: seq<nat>)
  {
    forall i, j :: 0 <= i < j < |s| ==> s[i] != s[j]
  }

  /**
   * The indices that rejection sampling keeps from a run of draws: each
   * draw that has not been chosen before, in the order drawn.
   */
  function KeepNew(draws: seq<nat>): (kept: seq<nat>)
    ensures Distinct(kept)
    ensures forall i :: 0 <= i < |kept| ==> kept[i] in draws
    ensures forall d :: d in draws ==> d in kept
    ensures |kept| <= |draws|
    decreases |draws|
  {
    if |draws| == 0 then []
    else
      var init := draws[..|draws| - 1];
      var d := draws[|draws| - 1];
      assert draws == init + [d];
      var kept := KeepNew(init);
      if d in kept then kept else kept + [d]
  }

  /** Drawing more never loses an index already kept. */
  lemma {:induction false} KeepNewGrows(a: seq<nat>, b: seq<nat>)
    ensures |KeepNew(a)| <= |KeepNew(a + b)|
    decreases |b|
  {
    if |b| > 0 {
      var init := b[..|b| - 1];
      KeepNewGrows(a, init);
      assert (a + b)[..|a + b| - 1] == a + init;
      assert |KeepNew(a + b)| >= |KeepNew(a + init)|;
    } else {
      assert a + b == a;
    }
  }

  lemma KeepNewInRange(draws: seq<nat>, n: nat)
    requires forall d <- draws :: d < n
    ensures forall i :: 0 <= i < |KeepNew(draws)| ==> KeepNew(draws)[i] < n
  {
  }

  /** One more draw: kept when new, and appended to the stream. */
  lemma PickStep(picks: seq<nat>, idx: nat)
    ensures (picks + [idx])[..|picks|] == picks
    ensures KeepNew(picks + [idx]) == if idx in KeepNew(picks) then KeepNew(picks) else KeepNew(picks) + [idx]
    ensures forall p <- picks + [idx] :: p in picks || p == idx
    ensures Indexes(picks + [idx]) == Indexes(picks) + [Index(idx)]
  {
    KeepNewSnoc(picks, idx);
    IndexesSnoc(picks, idx);
  }

  lemma KeepNewSnoc(picks: seq<nat>, idx: nat)
    ensures (picks + [idx])[..|picks|] == picks
    ensures KeepNew(picks + [idx]) == if idx in KeepNew(picks) then KeepNew(picks) else KeepNew(picks) + [idx]
  {
    assert (picks + [idx])[..|picks|] == picks;
  }

  lemma IndexesSnoc(picks: seq<nat>, idx: nat)
    ensures forall p <- picks + [idx] :: p in picks || p == idx
    ensures Indexes(picks + [idx]) == Indexes(picks) + [Index(idx)]
  {
  }

  /** The draws `picks` as they appear in the random stream. */
  function Indexes(picks: seq<nat>): seq<Draw>
  {
    seq(|picks|, i requires 0 <= i < |picks| => Index(picks[i]))
  }

  /** The rows at the given indices, in that order. */
  function Gather(data: seq<Row>, indices: seq<nat>): seq<Row>
    requires forall i :: 0 <= i < |indices| ==> indices[i] < |data|
  {
    seq(|indices|, i requires 0 <= i < |indices| => data[indices[i]])
  }

  /**
   * `sample` is what get_random_subsample returns after drawing `picks`,
   * when the forest's subsample size is `k`: the whole data set, in order,
   * when k is at least its size (and nothing is drawn); otherwise the rows
   * at the first k distinct draws, where the last draw is the one that
   * completed the set.
   */
  ghost predicate SampleFrom(picks: seq<nat>, sample: seq<Row>, data: seq<Row>, k: nat)
  {
    if k >= |data| then picks == [] && sample == data
    else
      (forall p <- picks :: p < |data|)
      && |KeepNew(picks)| == k
      && (picks != [] ==> |KeepNew(picks[..|picks| - 1])| < k)
      && sample == Gather(data, KeepNew(picks))
  }

  /**
   * A subsample has min(k, |data|) rows, each a row of the data, taken at
   * pairwise distinct in-range indices.
   */
  lemma SampleShape(picks: seq<nat>, sample: seq<Row>, data: seq<Row>, k: nat)
    requires SampleFrom(picks, sample, data, k)
    ensures |sample| == if k < |data| then k else |data|
    ensures forall row <- sample :: row in data
    ensures k < |data| ==>
      var indices := KeepNew(picks);
      Distinct(indices)
      && (forall i :: 0 <= i < |indices| ==> indices[i] < |data| && sample[i] == data[indices[i]])
  {
    if k < |data| {
      var indices := KeepNew(picks);
      forall i | 0 <= i < |indices| ensures indices[i] < |data| {
        assert indices[i] in picks;
      }
    }
  }

  /** The draws of one tree's fit: its subsample's picks, then its growth. */
  datatype Round = Round(picks: seq<nat>, sample: seq<Row>, growth: seq<Draw>)

  /** Everything a sequence of rounds drew, in order. */
  function RoundDraws(rounds: seq<Round>): seq<Draw>
  {
    if |rounds| == 0 then []
    else Indexes(rounds[0].picks) + rounds[0].growth + RoundDraws(rounds[1..])
  }

  lemma {:induction false} RoundDrawsAppend(rounds: seq<Round>, r: Round)
    ensures RoundDraws(rounds + [r]) == RoundDraws(rounds) + Indexes(r.picks) + r.growth
    decreases |rounds|
  {
    if |rounds| == 0 {
      assert [] + [r] == [r];
      assert [r][1..] == [];
    } else {
      assert (rounds + [r])[1..] == rounds[1..] + [r];
      RoundDrawsAppend(rounds[1..], r);
    }
  }

  /**
   * Tree `t` is a tree of a fit of `data`: it was built from depth 0 with
   * the forest's height limit from one subsample, with the draws the
   * round records.
   */
  ghost predicate Fitted(r: Round, t: IsolationTreeNode, data: seq<Row>, k: nat, heightLimit: nat)
  {
    SampleFrom(r.picks, r.sample, data, k)
    && Buildable(r.sample, 0, heightLimit)
    && Grow(r.sample, 0, heightLimit, r.growth) == Some((t, []))
  }

  lemma FittedAppend(rounds: seq<Round>, trees: seq<IsolationTreeNode>, r: Round, t: IsolationTreeNode,
                     data: seq<Row>, k: nat, heightLimit: nat)
    requires |rounds| == |trees|
    requires forall j :: 0 <= j < |trees| ==> Fitted(rounds[j], trees[j], data, k, heightLimit)
    requires Fitted(r, t, data, k, heightLimit)
    ensures forall j :: 0 <= j < |trees| + 1 ==>
      Fitted((rounds + [r])[j], (trees + [t])[j], data, k, heightLimit)
  {
    forall j | 0 <= j < |trees| + 1
      ensures Fitted((rounds + [r])[j], (trees + [t])[j], data, k, heightLimit)
    {
      if j < |trees| {
        assert (rounds + [r])[j] == rounds[j] && (trees + [t])[j] == trees[j];
      }
    }
  }

  /** A subsample of buildable rows is buildable. */
  lemma SampleBuildable(picks: seq<nat>, sample: seq<Row>, data: seq<Row>, k: nat, heightLimit: nat)
    requires SampleFrom(picks, sample, data, k) && Buildable(data, 0, heightLimit)
    ensures Buildable(sample, 0, heightLimit)
  {
    SampleShape(picks, sample, data, k);
    if |sample| > 0 {
      assert sample[0] in sample;
    }
  }

  // ---------------------------------------------------------------------
  // The forest
  // ---------------------------------------------------------------------

  predicate AllRoutable(trees: seq<IsolationTreeNode>, x: Row)
  {
    forall t <- trees :: Routable(t, x)
  }

  /** The sum of path_len(x, 0) over the trees, left to right. */
  function SumPathLen(trees: seq<IsolationTreeNode>, x: Row, estimate: nat -> real): real
    requires AllRoutable(trees, x)
    decreases |trees|
  {
    if |trees| == 0 then 0.0
    else PathLen(trees[0], x, 0, estimate) + SumPathLen(trees[1..], x, estimate)
  }

  class IsolationForest {
    var trees: seq<IsolationTreeNode>
    const numTrees: nat
    const subsampleSize: nat
    const maxTreeHeight: nat
    const rng: Rng

    /**
     * IsolationForest::new (forest.rs:16-31). The stream is seeded from
     * `seed` when given, otherwise from `entropy`, which stands for the
     * operating system's entropy source.
     */
    constructor (numTrees: nat, subsampleSize: nat, seed: Option<nat>, entropy: nat)
      ensures this.numTrees == numTrees && this.subsampleSize == subsampleSize
      ensures maxTreeHeight == CeilLog2(subsampleSize)
      ensures trees == []
      ensures fresh(rng) && rng.trace == []
    {
      rng := new Rng(match seed case Some(s) => s case None => entropy);
      this.numTrees := numTrees;
      this.subsampleSize := subsampleSize;
      maxTreeHeight := CeilLog2(subsampleSize);
      trees := [];
    }

    /**
     * get_random_subsample (forest.rs:53-73). When the subsample size
     * reaches the data size, the data comes back whole. Otherwise indices
     * are drawn from [0, |data|) and kept when new, until there are enough;
     * `fuel` bounds the number of draws, and None means it ran out.
     */
    method GetRandomSubsample(data: seq<Row>, fuel: nat)
      returns (subsample: Option<seq<Row>>, ghost picks: seq<nat>)
      modifies rng
      ensures rng.trace == old(rng.trace) + Indexes(picks)
      ensures subsampleSize >= |data| ==> subsample == Some(data) && picks == []
      ensures subsample.Some? ==> SampleFrom(picks, subsample.value, data, subsampleSize)
      ensures subsample.None? ==>
        subsampleSize < |data| && |picks| == fuel && |KeepNew(picks)| < subsampleSize
    {
      var dataSize := |data|;
      var sampleSize := if subsampleSize < dataSize then subsampleSize else dataSize;
      if sampleSize == dataSize {
        return Some(data), [];
      }
      var indices: seq<nat> := [];
      var draws := 0;
      picks := [];
      while |indices| < sampleSize && draws < fuel
        invariant indices == KeepNew(picks)
        invariant Distinct(indices) && |indices| <= sampleSize
        invariant forall i :: 0 <= i < |indices| ==> indices[i] < dataSize
        invariant forall p <- picks :: p < dataSize
        invariant picks != [] ==> |KeepNew(picks[..|picks| - 1])| < sampleSize
        invariant draws == |picks| <= fuel
        invariant rng.trace == old(rng.trace) + Indexes(picks)
        decreases fuel - draws
      {
        var idx := rng.RandomRange(0, dataSize);
        PickStep(picks, idx);
        if idx !in indices {
          indices := indices + [idx];
        }
        picks := picks + [idx];
        draws := draws + 1;
        KeepNewInRange(picks, dataSize);
      }
      if |indices| < sampleSize {
        return None, picks;
      }
      subsample := Some(Gather(data, indices));
    }

    /**
     * fit (forest.rs:33-50): the old ensemble is discarded and one tree
     * per round is built, from depth 0 with the forest's height limit, on
     * a fresh subsample. `rounds` records each round's draws. `complete`
     * is false only when a subsample ran out of fuel.
     */
    method Fit(data: seq<Row>, fuel: nat) returns (complete: bool, ghost rounds: seq<Round>)
      requires Buildable(data, 0, maxTreeHeight)
      modifies this, rng
      ensures complete <==> |trees| == numTrees
      ensures |trees| <= numTrees && |rounds| == |trees|
      ensures forall j :: 0 <= j < |trees| ==>
        Fitted(rounds[j], trees[j], data, subsampleSize, maxTreeHeight)
      ensures complete ==> rng.trace == old(rng.trace) + RoundDraws(rounds)
      ensures subsampleSize >= |data| ==> complete
    {
      trees := [];
      rounds := [];
      for i := 0 to numTrees
        invariant |trees| == |rounds| == i
        invariant forall j :: 0 <= j < i ==>
          Fitted(rounds[j], trees[j], data, subsampleSize, maxTreeHeight)
        invariant rng.trace == old(rng.trace) + RoundDraws(rounds)
      {
        ghost var drawn := RoundDraws(rounds);
        var subsample, picks := GetRandomSubsample(data, fuel);
        if subsample.None? {
          return false, rounds;
        }
        assert rng.trace == old(rng.trace) + drawn + Indexes(picks);
        SampleBuildable(picks, subsample.value, data, subsampleSize, maxTreeHeight);
        var tree, growth := BuildIsolationTree(subsample.value, 0, maxTreeHeight, rng);
        ghost var round := Round(picks, subsample.value, growth);
        assert Fitted(round, tree, data, subsampleSize, maxTreeHeight);
        RoundDrawsAppend(rounds, round);
        FittedAppend(rounds, trees, round, tree, data, subsampleSize, maxTreeHeight);
        SeqAssoc4(old(rng.trace), drawn, Indexes(picks), growth);
        trees := trees + [tree];
        rounds := rounds + [round];
      }
      complete := true;
    }

    /** Every tree can route `x`: it has each feature a split looks at. */
    predicate Scorable(x: Row)
      reads this
    {
      AllRoutable(trees, x)
    }

    /**
     * avg_path_len (forest.rs:95-108): 0 for an empty ensemble, otherwise
     * the mean of path_len(x, 0) over the trees.
     */
    function AvgPathLen(x: Row, estimate: nat -> real): (avg: real)
      reads this
      requires Scorable(x)
      ensures |trees| == 0 ==> avg == 0.0
      ensures |trees| > 0 ==> avg * (|trees| as real) == SumPathLen(trees, x, estimate)
    {
      if |trees| == 0 then 0.0 else SumPathLen(trees, x, estimate) / (|trees| as real)
    }

    /**
     * score_instance (forest.rs:83-92): the mean path length normalised by
     * c(subsample size). `normalize(a, n)` stands for 2^(-a / n).
     */
    function ScoreInstance(x: Row, estimate: nat -> real, normalize: (real, real) -> real): (s: real)
      reads this
      requires Scorable(x)
      ensures |trees| == 0 ==> s == normalize(0.0, C(subsampleSize, estimate))
      ensures |trees| > 0 ==> s == normalize(SumPathLen(trees, x, estimate) / (|trees| as real), C(subsampleSize, estimate))
    {
      normalize(AvgPathLen(x, estimate), C(subsampleSize, estimate))
    }

    /** score (forest.rs:76-80): one score per point, in the same order. */
    function Score(data: seq<Row>, estimate: nat -> real, normalize: (real, real) -> real)
      : (scores: seq<real>)
      reads this
      requires forall i :: 0 <= i < |data| ==> Scorable(data[i])
      ensures |scores| == |data|
      ensures forall i :: 0 <= i < |data| ==> scores[i] == ScoreInstance(data[i], estimate, normalize)
      decreases |data|
    {
      if |data| == 0 then []
      else [ScoreInstance(data[0], estimate, normalize)] + Score(data[1..], estimate, normalize)
    }
  }

  // ---------------------------------------------------------------------
  // Properties of fitting and scoring
  // ---------------------------------------------------------------------

  /**
   * A fitted tree accounts for every row of its subsample, respects the
   * height limit, and gives each point the path length "depth of the leaf
   * reached plus that leaf's correction".
   */
  lemma FittedTreeShape(r: Round, t: IsolationTreeNode, data: seq<Row>, k: nat, heightLimit: nat,
                        x: Row, estimate: nat -> real)
    requires Fitted(r, t, data, k, heightLimit) && Routable(t, x)
    ensures LeafSizeSum(t) == if k < |data| then k else |data|
    ensures ProperSplits(t) && DepthsFrom(t, 0) && WithinHeight(t, heightLimit)
    ensures Leaf(t, x).depth <= heightLimit
    ensures PathLen(t, x, 0, estimate) == Leaf(t, x).depth as real + C(Leaf(t, x).size, estimate)
  {
    SampleShape(r.picks, r.sample, data, k);
    GrowSizes(r.sample, 0, heightLimit, r.growth);
    GrowDepths(r.sample, 0, heightLimit, r.growth);
    PathLenAtLeaf(t, x, 0, estimate, 0);
    LeafWithinHeight(t, x, heightLimit);
  }

  /** The leaf a point reaches lies within the height limit. */
  lemma {:induction false} LeafWithinHeight(t: IsolationTreeNode, x: Row, heightLimit: nat)
    requires Routable(t, x) && WithinHeight(t, heightLimit)
    ensures Leaf(t, x).depth <= heightLimit
  {
    match t
    case Terminal(_, _) =>
    case Internal(f, v, l, r, _) =>
      LeafWithinHeight(if x[f] < v then l else r, x, heightLimit);
  }

  /**
   * On a data set of identical points, every fitted tree is a single
   * terminal node at depth 0 holding the whole subsample.
   */
  lemma IdenticalPointsTerminalRoot(r: Round, t: IsolationTreeNode, data: seq<Row>, k: nat, heightLimit: nat)
    requires Fitted(r, t, data, k, heightLimit) && AllSame(data)
    ensures t == Terminal(if k < |data| then k else |data|, 0)
  {
    SampleShape(r.picks, r.sample, data, k);
    forall i | 0 <= i < |r.sample| ensures r.sample[i] == r.sample[0] {
      assert r.sample[i] in data && r.sample[0] in data;
    }
    ConstantDataTerminal(r.sample, 0, heightLimit, r.growth);
  }

  /** c added to itself n times. */
  function Scale(n: nat, c: real): real
  {
    if n == 0 then 0.0 else Scale(n - 1, c) + c
  }

  lemma {:induction false} ScaleIsProduct(n: nat, c: real)
    ensures Scale(n, c) == (n as real) * c
  {
    if n > 0 {
      ScaleIsProduct(n - 1, c);
      assert (n as real) * c == ((n - 1) as real) * c + c;
    }
  }

  /** The sum of n path lengths, each within [lo, hi], lies within [n lo, n hi]. */
  lemma {:induction false} SumWithin(trees: seq<IsolationTreeNode>, x: Row, estimate: nat -> real, lo: real, hi: real)
    requires AllRoutable(trees, x)
    requires forall i :: 0 <= i < |trees| ==> lo <= PathLen(trees[i], x, 0, estimate) <= hi
    ensures Scale(|trees|, lo) <= SumPathLen(trees, x, estimate) <= Scale(|trees|, hi)
    decreases |trees|
  {
    if |trees| > 0 {
      var rest := trees[1..];
      assert forall i :: 0 <= i < |rest| ==> rest[i] == trees[i + 1];
      SumWithin(rest, x, estimate, lo, hi);
    }
  }

  /** A mean of n values whose sum lies within [n lo, n hi] lies within [lo, hi]. */
  lemma MeanBound(n: nat, mean: real, sum: real, lo: real, hi: real)
    requires n > 0 && mean == sum / (n as real)
    requires Scale(n, lo) <= sum <= Scale(n, hi)
    ensures lo <= mean <= hi
  {
    ScaleIsProduct(n, lo);
    ScaleIsProduct(n, hi);
    var m := n as real;
    assert mean * m == sum;
    assert m * (mean - lo) == sum - m * lo;
    assert m * (hi - mean) == m * hi - sum;
  }

  /** The mean path length of a fitted forest lies between the least and the
      greatest path length of its trees. */
  lemma AvgWithin(forest: IsolationForest, x: Row, estimate: nat -> real, lo: real, hi: real)
    requires forest.Scorable(x) && |forest.trees| > 0
    requires forall t <- forest.trees :: lo <= PathLen(t, x, 0, estimate) <= hi
    ensures lo <= forest.AvgPathLen(x, estimate) <= hi
  {
    assert forall i :: 0 <= i < |forest.trees| ==> forest.trees[i] in forest.trees;
    SumWithin(forest.trees, x, estimate, lo, hi);
    MeanBound(|forest.trees|, forest.AvgPathLen(x, estimate), SumPathLen(forest.trees, x, estimate), lo, hi);
  }

  /** On trees that are single terminal nodes, every point has the same sum. */
  lemma {:induction false} SumOverTerminals(trees: seq<IsolationTreeNode>, x: Row, y: Row, estimate: nat -> real)
    requires forall t <- trees :: t.Terminal?
    ensures AllRoutable(trees, x) && AllRoutable(trees, y)
    ensures SumPathLen(trees, x, estimate) == SumPathLen(trees, y, estimate)
    decreases |trees|
  {
    if |trees| > 0 {
      assert trees[0] in trees;
      assert forall t <- trees[1..] :: t in trees;
      SumOverTerminals(trees[1..], x, y, estimate);
    }
  }

  /**
   * A forest whose trees are all single terminal nodes (as on a data set
   * of identical points) gives every point the same score.
   */
  lemma TerminalForestUniformScore(forest: IsolationForest, x: Row, y: Row,
                                   estimate: nat -> real, normalize: (real, real) -> real)
    requires forall t <- forest.trees :: t.Terminal?
    ensures forest.Scorable(x) && forest.Scorable(y)
    ensures forest.ScoreInstance(x, estimate, normalize) == forest.ScoreInstance(y, estimate, normalize)
  {
    SumOverTerminals(forest.trees, x, y, estimate);
  }

  /**
   * A forest fitted on a data set of identical points gives every point
   * the same score: each tree is a single terminal root holding the
   * m = min(subsample_size, |data|) rows of its subsample, so the mean
   * path length is c(m) and the score is 2^(-c(m) / c(subsample_size)).
   */
  lemma IdenticalDataUniformScore(forest: IsolationForest, rounds: seq<Round>, data: seq<Row>,
                                  x: Row, y: Row, estimate: nat -> real, normalize: (real, real) -> real)
    requires |rounds| == |forest.trees| && AllSame(data)
    requires forall j :: 0 <= j < |forest.trees| ==>
      Fitted(rounds[j], forest.trees[j], data, forest.subsampleSize, forest.maxTreeHeight)
    ensures forest.Scorable(x) && forest.Scorable(y)
    ensures forest.ScoreInstance(x, estimate, normalize) == forest.ScoreInstance(y, estimate, normalize)
    ensures var m := if forest.subsampleSize < |data| then forest.subsampleSize else |data|;
      forest.ScoreInstance(x, estimate, normalize)
      == normalize(if |forest.trees| == 0 then 0.0 else C(m, estimate), C(forest.subsampleSize, estimate))
  {
    var m := if forest.subsampleSize < |data| then forest.subsampleSize else |data|;
    forall t | t in forest.trees ensures t == Terminal(m, 0) {
      var j :| 0 <= j < |forest.trees| && forest.trees[j] == t;
      IdenticalPointsTerminalRoot(rounds[j], t, data, forest.subsampleSize, forest.maxTreeHeight);
    }
    TerminalForestUniformScore(forest, x, y, estimate, normalize);
    if |forest.trees| > 0 {
      AvgWithin(forest, x, estimate, C(m, estimate), C(m, estimate));
    }
  }

  /**
   * Fitting is a function of the draws: two sequences of rounds over the
   * same data that drew the same values produced the same trees.
   */
  lemma {:induction false} FitDeterministic(
    rounds1: seq<Round>, trees1: seq<IsolationTreeNode>,
    rounds2: seq<Round>, trees2: seq<IsolationTreeNode>,
    data: seq<Row>, k: nat, heightLimit: nat)
    requires |rounds1| == |trees1| == |rounds2| == |trees2|
    requires forall j :: 0 <= j < |trees1| ==> Fitted(rounds1[j], trees1[j], data, k, heightLimit)
    requires forall j :: 0 <= j < |trees2| ==> Fitted(rounds2[j], trees2[j], data, k, heightLimit)
    requires RoundDraws(rounds1) == RoundDraws(rounds2)
    ensures trees1 == trees2
    decreases |rounds1|
  {
    if |rounds1| > 0 {
      var rest1, rest2 := RoundDraws(rounds1[1..]), RoundDraws(rounds2[1..]);
      RoundDeterministic(rounds1[0], trees1[0], rest1, rounds2[0], trees2[0], rest2, data, k, heightLimit);
      FitDeterministic(rounds1[1..], trees1[1..], rounds2[1..], trees2[1..], data, k, heightLimit);
      HeadTail(trees1, trees2);
    }
  }

  /** One round: the same stream gives the same tree and leaves the same rest. */
  lemma RoundDeterministic(r1: Round, t1: IsolationTreeNode, rest1: seq<Draw>,
                           r2: Round, t2: IsolationTreeNode, rest2: seq<Draw>,
                           data: seq<Row>, k: nat, heightLimit: nat)
    requires Fitted(r1, t1, data, k, heightLimit) && Fitted(r2, t2, data, k, heightLimit)
    requires Indexes(r1.picks) + r1.growth + rest1 == Indexes(r2.picks) + r2.growth + rest2
    ensures t1 == t2 && rest1 == rest2
  {
    assert Indexes(r1.picks) + r1.growth + rest1 == Indexes(r1.picks) + (r1.growth + rest1);
    assert Indexes(r2.picks) + r2.growth + rest2 == Indexes(r2.picks) + (r2.growth + rest2);
    PicksUnique(r1.picks, r1.sample, r1.growth + rest1, r2.picks, r2.sample, r2.growth + rest2, data, k);
    GrowthUnique(r1.sample, heightLimit, r1.growth, rest1, t1, r2.growth, rest2, t2);
  }

  lemma HeadTail<T>(a: seq<T>, b: seq<T>)
    requires |a| == |b| > 0 && a[0] == b[0] && a[1..] == b[1..]
    ensures a == b
  {
    assert a == [a[0]] + a[1..];
    assert b == [b[0]] + b[1..];
  }

  /**
   * The stop rule of rejection sampling makes the picks of a round a
   * function of the stream: the round ends at the first draw that makes
   * the set of kept indices complete.
   */
  lemma PicksUnique(picks1: seq<nat>, sample1: seq<Row>, tail1: seq<Draw>,
                    picks2: seq<nat>, sample2: seq<Row>, tail2: seq<Draw>,
                    data: seq<Row>, k: nat)
    requires SampleFrom(picks1, sample1, data, k) && SampleFrom(picks2, sample2, data, k)
    requires Indexes(picks1) + tail1 == Indexes(picks2) + tail2
    ensures picks1 == picks2 && sample1 == sample2 && tail1 == tail2
  {
    if k >= |data| {
      assert Indexes(picks1) == [] == Indexes(picks2);
      assert tail1 == [] + tail1;
      assert tail2 == [] + tail2;
    } else {
      if |picks1| < |picks2| {
        PrefixPicks(picks1, picks2, tail1, tail2);
        EarlierPrefixShort(picks1, picks2, k);
        assert false;
      } else if |picks2| < |picks1| {
        PrefixPicks(picks2, picks1, tail2, tail1);
        EarlierPrefixShort(picks2, picks1, k);
        assert false;
      } else {
        PrefixPicks(picks1, picks2, tail1, tail2);
      }
    }
  }

  /** Of two index streams that agree, the shorter one is a prefix of the other. */
  lemma PrefixPicks(a: seq<nat>, b: seq<nat>, tailA: seq<Draw>, tailB: seq<Draw>)
    requires |a| <= |b| && Indexes(a) + tailA == Indexes(b) + tailB
    ensures a == b[..|a|]
    ensures |a| == |b| ==> tailA == tailB
  {
    forall i | 0 <= i < |a| ensures a[i] == b[i] {
      assert (Indexes(a) + tailA)[i] == Index(a[i]);
      assert (Indexes(b) + tailB)[i] == Index(b[i]);
    }
    if |a| == |b| {
      assert Indexes(a) == Indexes(b);
      assert tailA == (Indexes(a) + tailA)[|a|..];
      assert tailB == (Indexes(b) + tailB)[|b|..];
    }
  }

  /** A proper prefix of a completed run of picks has not yet completed. */
  lemma EarlierPrefixShort(a: seq<nat>, b: seq<nat>, k: nat)
    requires |a| < |b| && a == b[..|a|]
    requires |KeepNew(b[..|b| - 1])| < k
    ensures |KeepNew(a)| < k
  {
    var init := b[..|b| - 1];
    assert init == a + init[|a|..];
    KeepNewGrows(a, init[|a|..]);
  }

  /**
   * Construction consumes exactly the draws it needs, so two growths of
   * the same sample read from the same stream coincide.
   */
  lemma GrowthUnique(sample: seq<Row>, heightLimit: nat,
                     g1: seq<Draw>, rest1: seq<Draw>, t1: IsolationTreeNode,
                     g2: seq<Draw>, rest2: seq<Draw>, t2: IsolationTreeNode)
    requires Buildable(sample, 0, heightLimit)
    requires Grow(sample, 0, heightLimit, g1) == Some((t1, []))
    requires Grow(sample, 0, heightLimit, g2) == Some((t2, []))
    requires g1 + rest1 == g2 + rest2
    ensures t1 == t2 && rest1 == rest2
  {
    if |g2| < |g1| {
      var m := g1[|g2|..];
      assert g1 == g2 + m by {
        assert forall i :: 0 <= i < |g2| ==> g1[i] == (g2 + rest2)[i];
      }
      GrowthPrefix(sample, heightLimit, g2, m, t2, t1);
      assert false;
    }
    var m := g2[|g1|..];
    assert g2 == g1 + m by {
      assert forall i :: 0 <= i < |g1| ==> g2[i] == (g1 + rest1)[i];
    }
    GrowthPrefix(sample, heightLimit, g1, m, t1, t2);
    assert g1 == g2;
    assert rest1 == (g1 + rest1)[|g1|..];
    assert rest2 == (g2 + rest2)[|g2|..];
  }

  /** A growth that used up its draws cannot be followed by more draws it needs. */
  lemma GrowthPrefix(sample: seq<Row>, heightLimit: nat, g: seq<Draw>, more: seq<Draw>,
                     t: IsolationTreeNode, t': IsolationTreeNode)
    requires Buildable(sample, 0, heightLimit)
    requires Grow(sample, 0, heightLimit, g) == Some((t, []))
    requires Grow(sample, 0, heightLimit, g + more) == Some((t', []))
    ensures more == [] && t == t'
  {
    GrowExtend(sample, 0, heightLimit, g, more);
    assert [] + more == more;
  }
}
