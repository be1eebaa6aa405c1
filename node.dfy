/**
 * One isolation tree (src/node.rs): its nodes, the construction that
 * partitions a list of rows recursively, and the traversal that measures the
 * path length of a point.
 *
 * Feature values are exact reals. The random generator is the oracle `Rng`;
 * the pure function `Grow` states what construction produces from the draws
 * it consumes, and `BuildIsolationTree` is proved to follow it.
 */
module Node {
  import opened Wrappers
  import opened Random

  /** A data point: its feature values. */
  type Row = seq<real>

  /** f64::EPSILON (2^-52), the tolerance under which a feature is constant. */
  const Epsilon: real := 0.0000000000000002220446049250313080847263336181640625

  datatype IsolationTreeNode =
    | Internal(splitFeature: nat, splitValue: real,
               left: IsolationTreeNode, right: IsolationTreeNode, depth: nat)
    | Terminal(size: nat, depth: nat)

  function Abs(x: real): real { if x < 0.0 then -x else x }

  function Min(a: real, b: real): real { if a <= b then a else b }

  function Max(a: real, b: real): real { if a >= b then a else b }

  // ---------------------------------------------------------------------
  // Path length
  // ---------------------------------------------------------------------

  /**
   * The correction c(size): 0 for a leaf holding at most one point, and
   * otherwise the floating-point estimate 2(ln n + gamma) - 2(n-1)/n,
   * which the model leaves abstract as `estimate`.
   */
  function C(size: nat, estimate: nat -> real): (c: real)
    ensures size <= 1 ==> c == 0.0
    ensures size > 1 ==> c == estimate(size)
  {
    if size <= 1 then 0.0 else estimate(size)
  }

  /** `x` has every feature that the splits on its route look at. */
  predicate Routable(t: IsolationTreeNode, x: Row)
  {
    match t
    case Terminal(_, _) => true
    case Internal(f, v, l, r, _) =>
      f < |x| && (if x[f] < v then Routable(l, x) else Routable(r, x))
  }

  /** The number of splits on the route of `x`, that is, the edges walked. */
  function Hops(t: IsolationTreeNode, x: Row): nat
    requires Routable(t, x)
  {
    match t
    case Terminal(_, _) => 0
    case Internal(f, v, l, r, _) => 1 + Hops(if x[f] < v then l else r, x)
  }

  /** path_len: one per edge walked, plus c(size) at the leaf reached. */
  function PathLen(t: IsolationTreeNode, x: Row, currLen: nat, estimate: nat -> real): (len: real)
    requires Routable(t, x)
    ensures len == (currLen + Hops(t, x)) as real + C(Leaf(t, x).size, estimate)
  {
    match t
    case Terminal(size, _) => currLen as real + C(size, estimate)
    case Internal(f, v, l, r, _) =>
      if x[f] < v then PathLen(l, x, currLen + 1, estimate)
      else PathLen(r, x, currLen + 1, estimate)
  }

  /** The leaf that `x` reaches. */
  function Leaf(t: IsolationTreeNode, x: Row): (leaf: IsolationTreeNode)
    requires Routable(t, x)
    ensures leaf.Terminal?
  {
    match t
    case Terminal(_, _) => t
    case Internal(f, v, l, r, _) => if x[f] < v then Leaf(l, x) else Leaf(r, x)
  }

  /** A leaf holding at most one point adds no correction. */
  lemma SmallLeafNoCorrection(t: IsolationTreeNode, x: Row, k: nat, estimate: nat -> real)
    requires t.Terminal? && t.size <= 1
    ensures PathLen(t, x, k, estimate) == k as real
  {
  }

  /** The running length only shifts the result. */
  lemma {:induction false} PathLenShift(t: IsolationTreeNode, x: Row, k: nat, estimate: nat -> real)
    requires Routable(t, x)
    ensures PathLen(t, x, k, estimate) == k as real + PathLen(t, x, 0, estimate)
  {
    match t
    case Terminal(_, _) =>
    case Internal(f, v, l, r, _) =>
      var child := if x[f] < v then l else r;
      PathLenShift(child, x, k + 1, estimate);
      PathLenShift(child, x, 1, estimate);
  }

  /** Every child sits one level below its parent, the root at level `d`. */
  ghost predicate DepthsFrom(t: IsolationTreeNode, d: nat)
  {
    t.depth == d &&
    match t
    case Terminal(_, _) => true
    case Internal(_, _, l, r, _) => DepthsFrom(l, d + 1) && DepthsFrom(r, d + 1)
  }

  /** In a tree whose levels are consistent, the path length is the running
      length plus the edges down to the leaf plus that leaf's correction. */
  lemma {:induction false} PathLenAtLeaf(t: IsolationTreeNode, x: Row, k: nat, estimate: nat -> real, d: nat)
    requires Routable(t, x) && DepthsFrom(t, d)
    ensures Leaf(t, x).depth >= d
    ensures PathLen(t, x, k, estimate)
            == (k + Leaf(t, x).depth - d) as real + C(Leaf(t, x).size, estimate)
  {
    match t
    case Terminal(_, _) =>
    case Internal(f, v, l, r, _) =>
      var child := if x[f] < v then l else r;
      PathLenAtLeaf(child, x, k + 1, estimate, d + 1);
  }

  // ---------------------------------------------------------------------
  // The rows handed to construction
  // ---------------------------------------------------------------------

  /** Number of features, read from the first row (node.rs:82). */
  function Width(data: seq<Row>): nat
  {
    if |data| == 0 then 0 else |data[0]|
  }

  /** Every row has as many features as the first one. */
  predicate Rectangular(data: seq<Row>)
  {
    forall i :: 0 <= i < |data| ==> |data[i]| == Width(data)
  }

  /** Every row has feature `f`. */
  predicate HasFeature(data: seq<Row>, f: nat)
  {
    forall i :: 0 <= i < |data| ==> f < |data[i]|
  }

  /**
   * What construction needs of its rows so that no draw and no index
   * fails: equal widths, and at least one feature whenever a split is
   * attempted (random_range(0..0) would panic).
   */
  predicate Buildable(data: seq<Row>, depth: nat, heightLimit: nat)
  {
    Rectangular(data) && (|data| >= 2 && depth < heightLimit ==> Width(data) > 0)
  }

  /** The smallest value of feature `f` (ColumnBounds, ColumnAttained). */
  function ColumnMin(data: seq<Row>, f: nat): real
    requires |data| > 0 && HasFeature(data, f)
    decreases |data|
  {
    var last := data[|data| - 1][f];
    if |data| == 1 then last else Min(ColumnMin(data[..|data| - 1], f), last)
  }

  /** The largest value of feature `f` (ColumnBounds, ColumnAttained). */
  function ColumnMax(data: seq<Row>, f: nat): real
    requires |data| > 0 && HasFeature(data, f)
    decreases |data|
  {
    var last := data[|data| - 1][f];
    if |data| == 1 then last else Max(ColumnMax(data[..|data| - 1], f), last)
  }

  /** Every row's value of feature `f` lies between the two extremes. */
  lemma {:induction false} ColumnBounds(data: seq<Row>, f: nat)
    requires |data| > 0 && HasFeature(data, f)
    ensures forall i :: 0 <= i < |data| ==> ColumnMin(data, f) <= data[i][f] <= ColumnMax(data, f)
    decreases |data|
  {
    if |data| > 1 {
      var init := data[..|data| - 1];
      ColumnBounds(init, f);
      assert forall i :: 0 <= i < |init| ==> data[i] == init[i];
    }
  }

  /** Both extremes are values that some row actually has. */
  lemma {:induction false} ColumnAttained(data: seq<Row>, f: nat)
    requires |data| > 0 && HasFeature(data, f)
    ensures exists i :: 0 <= i < |data| && data[i][f] == ColumnMin(data, f)
    ensures exists j :: 0 <= j < |data| && data[j][f] == ColumnMax(data, f)
    decreases |data|
  {
    if |data| == 1 {
      assert data[0][f] == ColumnMin(data, f) == ColumnMax(data, f);
    } else {
      var init := data[..|data| - 1];
      ColumnAttained(init, f);
      var i :| 0 <= i < |init| && init[i][f] == ColumnMin(init, f);
      var j :| 0 <= j < |init| && init[j][f] == ColumnMax(init, f);
      assert data[i] == init[i] && data[j] == init[j];
      var last := |data| - 1;
      var iMin := if init[i][f] <= data[last][f] then i else last;
      var jMax := if init[j][f] >= data[last][f] then j else last;
      assert data[iMin][f] == ColumnMin(data, f);
      assert data[jMax][f] == ColumnMax(data, f);
    }
  }

  /**
   * The loop of node.rs:87-94: the least and the greatest value of
   * feature `f` over all rows. The source starts from +/- infinity; with
   * at least one row, starting from the first row's value is the same.
   */
  method FeatureRange(data: seq<Row>, f: nat) returns (minVal: real, maxVal: real)
    requires |data| > 0 && HasFeature(data, f)
    ensures minVal == ColumnMin(data, f) && maxVal == ColumnMax(data, f)
    ensures forall i :: 0 <= i < |data| ==> minVal <= data[i][f] <= maxVal
    ensures exists i :: 0 <= i < |data| && data[i][f] == minVal
    ensures exists j :: 0 <= j < |data| && data[j][f] == maxVal
  {
    minVal, maxVal := data[0][f], data[0][f];
    for i := 0 to |data|
      invariant i == 0 ==> minVal == data[0][f] == maxVal
      invariant i > 0 ==> minVal == ColumnMin(data[..i], f) && maxVal == ColumnMax(data[..i], f)
    {
      var val := data[i][f];
      minVal := Min(minVal, val);
      maxVal := Max(maxVal, val);
      ColumnStep(data, f, i);
    }
    assert data[..|data|] == data;
    ColumnBounds(data, f);
    ColumnAttained(data, f);
  }

  /** Extending the rows seen by one row updates the extremes by that row. */
  lemma ColumnStep(data: seq<Row>, f: nat, i: nat)
    requires i < |data| && HasFeature(data, f)
    ensures i > 0 ==> ColumnMin(data[..i + 1], f) == Min(ColumnMin(data[..i], f), data[i][f])
    ensures i > 0 ==> ColumnMax(data[..i + 1], f) == Max(ColumnMax(data[..i], f), data[i][f])
    ensures i == 0 ==> ColumnMin(data[..1], f) == data[0][f] == ColumnMax(data[..1], f)
  {
    assert data[..i + 1][..i] == data[..i];
  }

  /**
   * The rows that go to one side of the split `row[f] < v`, in their
   * original order: the left side when `isLeft`, the right side otherwise.
   */
  function Side(data: seq<Row>, f: nat, v: real, isLeft: bool): (side: seq<Row>)
    requires HasFeature(data, f)
    ensures |side| <= |data|
    decreases |data|
  {
    if |data| == 0 then []
    else
      var rest := Side(data[..|data| - 1], f, v, isLeft);
      var row := data[|data| - 1];
      if (row[f] < v) == isLeft then rest + [row] else rest
  }

  /** Every row on a side falls on that side of the threshold. */
  lemma {:induction false} SideSigns(data: seq<Row>, f: nat, v: real, isLeft: bool)
    requires HasFeature(data, f)
    ensures var side := Side(data, f, v, isLeft);
      HasFeature(side, f) && forall i :: 0 <= i < |side| ==> (side[i][f] < v) == isLeft
    decreases |data|
  {
    if |data| > 0 {
      SideSigns(data[..|data| - 1], f, v, isLeft);
    }
  }

  /** The two sides together hold every row, each exactly once. */
  lemma {:induction false} SidesPartition(data: seq<Row>, f: nat, v: real)
    requires HasFeature(data, f)
    ensures multiset(Side(data, f, v, true)) + multiset(Side(data, f, v, false)) == multiset(data)
    ensures |Side(data, f, v, true)| + |Side(data, f, v, false)| == |data|
    decreases |data|
  {
    if |data| > 0 {
      var init := data[..|data| - 1];
      SidesPartition(init, f, v);
      assert data == init + [data[|data| - 1]];
    }
  }

  /** A side is empty exactly when no row falls on it. */
  lemma {:induction false} SideEmpty(data: seq<Row>, f: nat, v: real, isLeft: bool)
    requires HasFeature(data, f)
    ensures |Side(data, f, v, isLeft)| == 0
            <==> forall i :: 0 <= i < |data| ==> (data[i][f] < v) != isLeft
    decreases |data|
  {
    if |data| > 0 {
      var init := data[..|data| - 1];
      SideEmpty(init, f, v, isLeft);
      assert forall i :: 0 <= i < |init| ==> init[i] == data[i];
    }
  }

  /**
   * For a threshold drawn from [min, max] the right side never becomes
   * empty, and the left side is empty only when the threshold is the
   * minimum itself.
   */
  lemma SideEmptyCases(data: seq<Row>, f: nat, v: real)
    requires |data| > 0 && HasFeature(data, f)
    requires ColumnMin(data, f) <= v <= ColumnMax(data, f)
    ensures |Side(data, f, v, false)| > 0
    ensures |Side(data, f, v, true)| == 0 <==> v == ColumnMin(data, f)
  {
    SideEmpty(data, f, v, false);
    SideEmpty(data, f, v, true);
    ColumnAttained(data, f);
    ColumnBounds(data, f);
  }

  /**
   * The loop of node.rs:108-117: rows with `row[f] < v` are pushed to the
   * left, the others to the right, keeping their order.
   */
  method Partition(data: seq<Row>, f: nat, v: real) returns (left: seq<Row>, right: seq<Row>)
    requires HasFeature(data, f)
    ensures left == Side(data, f, v, true) && right == Side(data, f, v, false)
  {
    left, right := [], [];
    for i := 0 to |data|
      invariant left == Side(data[..i], f, v, true)
      invariant right == Side(data[..i], f, v, false)
    {
      assert data[..i + 1][..i] == data[..i];
      if data[i][f] < v {
        left := left + [data[i]];
      } else {
        right := right + [data[i]];
      }
    }
    assert data[..|data|] == data;
  }

  /** Every row on a side is a row of the input. */
  lemma {:induction false} SideRows(data: seq<Row>, f: nat, v: real, isLeft: bool)
    requires HasFeature(data, f)
    ensures forall row <- Side(data, f, v, isLeft) :: row in data
    decreases |data|
  {
    if |data| > 0 {
      SideRows(data[..|data| - 1], f, v, isLeft);
    }
  }

  /** A non-empty side of buildable rows is buildable one level down. */
  lemma SideBuildable(data: seq<Row>, f: nat, v: real, isLeft: bool, depth: nat, heightLimit: nat)
    requires Buildable(data, depth, heightLimit) && f < Width(data)
    ensures Buildable(Side(data, f, v, isLeft), depth + 1, heightLimit)
  {
    var side := Side(data, f, v, isLeft);
    SideRows(data, f, v, isLeft);
    if |side| > 0 {
      assert side[0] in side;
    }
  }

  // ---------------------------------------------------------------------
  // Construction
  // ---------------------------------------------------------------------

  /**
   * The tree that build_isolation_tree returns when `draws` are the
   * oracle's values in the order they are taken, together with the draws
   * left over. The order is: the feature, the threshold, everything the
   * left subtree draws, everything the right subtree draws. None when
   * `draws` runs out or holds a value the oracle could not have returned.
   */
  function Grow(data: seq<Row>, depth: nat, heightLimit: nat, draws: seq<Draw>)
    : Option<(IsolationTreeNode, seq<Draw>)>
    requires Buildable(data, depth, heightLimit)
    decreases |data|, 2
  {
    if |data| <= 1 || depth >= heightLimit then
      Some((Terminal(|data|, depth), draws))
    else if |draws| == 0 || !draws[0].Index? || draws[0].index >= Width(data) then
      None
    else
      GrowOnFeature(data, depth, heightLimit, draws[0].index, draws[1..])
  }

  /** Construction once feature `f` has been drawn: stop on a constant
      feature, otherwise draw a threshold within the feature's range. */
  function GrowOnFeature(data: seq<Row>, depth: nat, heightLimit: nat, f: nat, draws: seq<Draw>)
    : Option<(IsolationTreeNode, seq<Draw>)>
    requires Buildable(data, depth, heightLimit) && |data| > 1 && f < Width(data)
    decreases |data|, 1
  {
    var lo, hi := ColumnMin(data, f), ColumnMax(data, f);
    if Abs(hi - lo) < Epsilon then
      Some((Terminal(|data|, depth), draws))
    else if |draws| == 0 || !draws[0].Value? || !(lo <= draws[0].value <= hi) then
      None
    else
      GrowOnSplit(data, depth, heightLimit, f, draws[0].value, draws[1..])
  }

  /** Construction once the threshold `v` has been drawn: stop if a side is
      empty, otherwise build the left subtree, then the right one. */
  function GrowOnSplit(data: seq<Row>, depth: nat, heightLimit: nat, f: nat, v: real, draws: seq<Draw>)
    : Option<(IsolationTreeNode, seq<Draw>)>
    requires Buildable(data, depth, heightLimit) && |data| > 1 && f < Width(data)
    decreases |data|, 0
  {
    var left, right := Side(data, f, v, true), Side(data, f, v, false);
    if |left| == 0 || |right| == 0 then
      Some((Terminal(|data|, depth), draws))
    else
      SidesPartition(data, f, v);
      SideBuildable(data, f, v, true, depth, heightLimit);
      SideBuildable(data, f, v, false, depth, heightLimit);
      match Grow(left, depth + 1, heightLimit, draws)
      case None => None
      case Some((l, afterLeft)) =>
        match Grow(right, depth + 1, heightLimit, afterLeft)
        case None => None
        case Some((r, afterRight)) => Some((Internal(f, v, l, r, depth), afterRight))
  }

  /** Draws appended after the ones construction needs are left over untouched. */
  lemma {:induction false} GrowExtend(data: seq<Row>, depth: nat, heightLimit: nat,
                                      draws: seq<Draw>, more: seq<Draw>)
    requires Buildable(data, depth, heightLimit)
    requires Grow(data, depth, heightLimit, draws).Some?
    ensures var (t, rest) := Grow(data, depth, heightLimit, draws).value;
      Grow(data, depth, heightLimit, draws + more) == Some((t, rest + more))
    decreases |data|
  {
    if |data| > 1 && depth < heightLimit {
      var f := draws[0].index;
      var afterFeature := draws[1..];
      assert (draws + more)[0] == draws[0];
      assert (draws + more)[1..] == afterFeature + more;
      assert Grow(data, depth, heightLimit, draws) == GrowOnFeature(data, depth, heightLimit, f, afterFeature);
      assert Grow(data, depth, heightLimit, draws + more)
             == GrowOnFeature(data, depth, heightLimit, f, afterFeature + more);
      if Abs(ColumnMax(data, f) - ColumnMin(data, f)) >= Epsilon {
        var v := afterFeature[0].value;
        var afterValue := afterFeature[1..];
        assert (afterFeature + more)[0] == afterFeature[0];
        assert (afterFeature + more)[1..] == afterValue + more;
        assert GrowOnFeature(data, depth, heightLimit, f, afterFeature)
               == GrowOnSplit(data, depth, heightLimit, f, v, afterValue);
        assert GrowOnFeature(data, depth, heightLimit, f, afterFeature + more)
               == GrowOnSplit(data, depth, heightLimit, f, v, afterValue + more);
        var left, right := Side(data, f, v, true), Side(data, f, v, false);
        if |left| > 0 && |right| > 0 {
          SidesPartition(data, f, v);
          SideBuildable(data, f, v, true, depth, heightLimit);
          SideBuildable(data, f, v, false, depth, heightLimit);
          GrowExtend(left, depth + 1, heightLimit, afterValue, more);
          var (l, afterLeft) := Grow(left, depth + 1, heightLimit, afterValue).value;
          GrowExtend(right, depth + 1, heightLimit, afterLeft, more);
          var (r, afterRight) := Grow(right, depth + 1, heightLimit, afterLeft).value;
          assert Grow(data, depth, heightLimit, draws + more)
                 == GrowOnSplit(data, depth, heightLimit, f, v, afterValue + more)
                 == Some((Internal(f, v, l, r, depth), afterRight + more));
        }
      }
    }
  }

  /**
   * build_isolation_tree (node.rs:62-150). The rows are split on a drawn
   * feature at a drawn threshold until one of the four stopping rules
   * fires; `used` are the draws this call took from the oracle.
   */
  method BuildIsolationTree(data: seq<Row>, depth: nat, heightLimit: nat, rng: Rng)
    returns (t: IsolationTreeNode, ghost used: seq<Draw>)
    requires Buildable(data, depth, heightLimit)
    modifies rng
    ensures rng.trace == old(rng.trace) + used
    ensures Grow(data, depth, heightLimit, used) == Some((t, []))
    ensures |data| <= 1 || depth >= heightLimit ==> t == Terminal(|data|, depth) && used == []
    decreases |data|
  {
    var sampleSize := |data|;
    if sampleSize <= 1 || depth >= heightLimit {
      return Terminal(sampleSize, depth), [];
    }
    var numFeatures := Width(data);
    var splitFeature := rng.RandomRange(0, numFeatures);
    var minVal, maxVal := FeatureRange(data, splitFeature);
    if Abs(maxVal - minVal) < Epsilon {
      GrowConstantFeature(data, depth, heightLimit, splitFeature);
      return Terminal(sampleSize, depth), [Index(splitFeature)];
    }
    var splitValue := rng.RandomReal(minVal, maxVal);
    ghost var head := [Index(splitFeature), Value(splitValue)];
    assert rng.trace == old(rng.trace) + head;
    var leftData, rightData := Partition(data, splitFeature, splitValue);
    if |leftData| == 0 || |rightData| == 0 {
      GrowEmptySide(data, depth, heightLimit, splitFeature, splitValue);
      return Terminal(sampleSize, depth), head;
    }
    SidesPartition(data, splitFeature, splitValue);
    SideBuildable(data, splitFeature, splitValue, true, depth, heightLimit);
    SideBuildable(data, splitFeature, splitValue, false, depth, heightLimit);
    var left, usedLeft := BuildIsolationTree(leftData, depth + 1, heightLimit, rng);
    var right, usedRight := BuildIsolationTree(rightData, depth + 1, heightLimit, rng);
    GrowSplits(data, depth, heightLimit, splitFeature, splitValue, usedLeft, usedRight, left, right);
    SeqAssoc4(old(rng.trace), head, usedLeft, usedRight);
    t := Internal(splitFeature, splitValue, left, right, depth);
    used := head + usedLeft + usedRight;
  }

  /** Regrouping a concatenation of four sequences. */
  lemma SeqAssoc4<T>(a: seq<T>, b: seq<T>, c: seq<T>, d: seq<T>)
    ensures a + b + c + d == a + (b + c + d)
  {
  }

  /** A constant feature stops construction after one draw. */
  lemma GrowConstantFeature(data: seq<Row>, depth: nat, heightLimit: nat, f: nat)
    requires Buildable(data, depth, heightLimit) && |data| > 1 && depth < heightLimit
    requires f < Width(data)
    requires Abs(ColumnMax(data, f) - ColumnMin(data, f)) < Epsilon
    ensures Grow(data, depth, heightLimit, [Index(f)]) == Some((Terminal(|data|, depth), []))
  {
    assert [Index(f)][1..] == [];
  }

  /** A threshold that leaves a side empty stops construction after two draws. */
  lemma GrowEmptySide(data: seq<Row>, depth: nat, heightLimit: nat, f: nat, v: real)
    requires Buildable(data, depth, heightLimit) && |data| > 1 && depth < heightLimit
    requires f < Width(data)
    requires Abs(ColumnMax(data, f) - ColumnMin(data, f)) >= Epsilon
    requires ColumnMin(data, f) <= v <= ColumnMax(data, f)
    requires |Side(data, f, v, true)| == 0 || |Side(data, f, v, false)| == 0
    ensures Grow(data, depth, heightLimit, [Index(f), Value(v)]) == Some((Terminal(|data|, depth), []))
  {
    var used := [Index(f), Value(v)];
    assert used[1..] == [Value(v)] && used[1..][1..] == [];
    assert GrowOnSplit(data, depth, heightLimit, f, v, []) == Some((Terminal(|data|, depth), []));
  }

  /** A split on `f` at `v` whose sides are built from `usedLeft`, then from
      `usedRight`, gives the internal node over the two subtrees. */
  lemma GrowSplits(data: seq<Row>, depth: nat, heightLimit: nat, f: nat, v: real,
                   usedLeft: seq<Draw>, usedRight: seq<Draw>, l: IsolationTreeNode, r: IsolationTreeNode)
    requires Buildable(data, depth, heightLimit) && |data| > 1 && depth < heightLimit
    requires f < Width(data)
    requires Abs(ColumnMax(data, f) - ColumnMin(data, f)) >= Epsilon
    requires ColumnMin(data, f) <= v <= ColumnMax(data, f)
    requires |Side(data, f, v, true)| > 0 && |Side(data, f, v, false)| > 0
    requires Buildable(Side(data, f, v, true), depth + 1, heightLimit)
    requires Buildable(Side(data, f, v, false), depth + 1, heightLimit)
    requires Grow(Side(data, f, v, true), depth + 1, heightLimit, usedLeft) == Some((l, []))
    requires Grow(Side(data, f, v, false), depth + 1, heightLimit, usedRight) == Some((r, []))
    ensures Grow(data, depth, heightLimit, [Index(f), Value(v)] + usedLeft + usedRight)
            == Some((Internal(f, v, l, r, depth), []))
  {
    var subtrees := usedLeft + usedRight;
    assert [Index(f), Value(v)] + usedLeft + usedRight == [Index(f)] + ([Value(v)] + subtrees);
    GrowExtend(Side(data, f, v, true), depth + 1, heightLimit, usedLeft, usedRight);
    assert [] + usedRight == usedRight;
    SplitStage(data, depth, heightLimit, f, v, subtrees, l, r);
    ValueStage(data, depth, heightLimit, f, v, subtrees);
    FeatureStage(data, depth, heightLimit, f, [Value(v)] + subtrees);
  }

  /** Construction on a drawn feature `f` continues with the remaining draws. */
  lemma FeatureStage(data: seq<Row>, depth: nat, heightLimit: nat, f: nat, rest: seq<Draw>)
    requires Buildable(data, depth, heightLimit) && |data| > 1 && depth < heightLimit
    requires f < Width(data)
    ensures Grow(data, depth, heightLimit, [Index(f)] + rest)
            == GrowOnFeature(data, depth, heightLimit, f, rest)
  {
    assert ([Index(f)] + rest)[0] == Index(f);
    assert ([Index(f)] + rest)[1..] == rest;
  }

  /** On a non-constant feature, a drawn threshold within its range is used. */
  lemma ValueStage(data: seq<Row>, depth: nat, heightLimit: nat, f: nat, v: real, rest: seq<Draw>)
    requires Buildable(data, depth, heightLimit) && |data| > 1 && f < Width(data)
    requires Abs(ColumnMax(data, f) - ColumnMin(data, f)) >= Epsilon
    requires ColumnMin(data, f) <= v <= ColumnMax(data, f)
    ensures GrowOnFeature(data, depth, heightLimit, f, [Value(v)] + rest)
            == GrowOnSplit(data, depth, heightLimit, f, v, rest)
  {
    assert ([Value(v)] + rest)[0] == Value(v);
    assert ([Value(v)] + rest)[1..] == rest;
  }

  /** With both sides non-empty, the left subtree takes its draws first. */
  lemma SplitStage(data: seq<Row>, depth: nat, heightLimit: nat, f: nat, v: real, rest: seq<Draw>,
                   l: IsolationTreeNode, r: IsolationTreeNode)
    requires Buildable(data, depth, heightLimit) && |data| > 1 && f < Width(data)
    requires |Side(data, f, v, true)| > 0 && |Side(data, f, v, false)| > 0
    requires Buildable(Side(data, f, v, true), depth + 1, heightLimit)
    requires Buildable(Side(data, f, v, false), depth + 1, heightLimit)
    requires Grow(Side(data, f, v, true), depth + 1, heightLimit, rest).Some?
    requires Grow(Side(data, f, v, true), depth + 1, heightLimit, rest).value.0 == l
    requires Grow(Side(data, f, v, false), depth + 1, heightLimit,
                  Grow(Side(data, f, v, true), depth + 1, heightLimit, rest).value.1)
             == Some((r, []))
    ensures GrowOnSplit(data, depth, heightLimit, f, v, rest) == Some((Internal(f, v, l, r, depth), []))
  {
  }

  // ---------------------------------------------------------------------
  // The shape of a built tree
  // ---------------------------------------------------------------------

  /** The sum of the sizes of the terminal nodes. */
  function LeafSizeSum(t: IsolationTreeNode): nat
  {
    match t
    case Terminal(size, _) => size
    case Internal(_, _, l, r, _) => LeafSizeSum(l) + LeafSizeSum(r)
  }

  /** Every internal node splits its points into two non-empty parts. */
  ghost predicate ProperSplits(t: IsolationTreeNode)
  {
    match t
    case Terminal(_, _) => true
    case Internal(_, _, l, r, _) =>
      LeafSizeSum(l) >= 1 && LeafSizeSum(r) >= 1 && ProperSplits(l) && ProperSplits(r)
  }

  /** No node lies below the height limit, and no internal node lies at it. */
  ghost predicate WithinHeight(t: IsolationTreeNode, heightLimit: nat)
  {
    match t
    case Terminal(_, d) => d <= heightLimit
    case Internal(_, _, l, r, d) =>
      d < heightLimit && WithinHeight(l, heightLimit) && WithinHeight(r, heightLimit)
  }

  /**
   * The terminal sizes of a built tree add up to the number of rows it was
   * built from, and each internal node gives both children at least one
   * row, so each child holds strictly fewer rows than its parent.
   */
  lemma {:induction false} GrowSizes(data: seq<Row>, depth: nat, heightLimit: nat, draws: seq<Draw>)
    requires Buildable(data, depth, heightLimit)
    requires Grow(data, depth, heightLimit, draws).Some?
    ensures var t := Grow(data, depth, heightLimit, draws).value.0;
      LeafSizeSum(t) == |data| && ProperSplits(t)
    decreases |data|
  {
    if |data| > 1 && depth < heightLimit {
      var f := draws[0].index;
      var afterFeature := draws[1..];
      assert Grow(data, depth, heightLimit, draws) == GrowOnFeature(data, depth, heightLimit, f, afterFeature);
      if Abs(ColumnMax(data, f) - ColumnMin(data, f)) >= Epsilon {
        var v := afterFeature[0].value;
        var afterValue := afterFeature[1..];
        assert GrowOnFeature(data, depth, heightLimit, f, afterFeature)
               == GrowOnSplit(data, depth, heightLimit, f, v, afterValue);
        var left, right := Side(data, f, v, true), Side(data, f, v, false);
        if |left| > 0 && |right| > 0 {
          SidesPartition(data, f, v);
          SideBuildable(data, f, v, true, depth, heightLimit);
          SideBuildable(data, f, v, false, depth, heightLimit);
          GrowSizes(left, depth + 1, heightLimit, afterValue);
          var (l, afterLeft) := Grow(left, depth + 1, heightLimit, afterValue).value;
          GrowSizes(right, depth + 1, heightLimit, afterLeft);
          var r := Grow(right, depth + 1, heightLimit, afterLeft).value.0;
          assert Grow(data, depth, heightLimit, draws).value.0 == Internal(f, v, l, r, depth);
        }
      }
    }
  }

  /**
   * Children are built one level below their parent, and a tree built from
   * a depth within the limit stays within it: only terminal nodes reach
   * the limit.
   */
  lemma {:induction false} GrowDepths(data: seq<Row>, depth: nat, heightLimit: nat, draws: seq<Draw>)
    requires Buildable(data, depth, heightLimit)
    requires Grow(data, depth, heightLimit, draws).Some?
    ensures var t := Grow(data, depth, heightLimit, draws).value.0;
      DepthsFrom(t, depth) && (depth <= heightLimit ==> WithinHeight(t, heightLimit))
    decreases |data|
  {
    if |data| > 1 && depth < heightLimit {
      var f := draws[0].index;
      var afterFeature := draws[1..];
      assert Grow(data, depth, heightLimit, draws) == GrowOnFeature(data, depth, heightLimit, f, afterFeature);
      if Abs(ColumnMax(data, f) - ColumnMin(data, f)) >= Epsilon {
        var v := afterFeature[0].value;
        var afterValue := afterFeature[1..];
        assert GrowOnFeature(data, depth, heightLimit, f, afterFeature)
               == GrowOnSplit(data, depth, heightLimit, f, v, afterValue);
        var left, right := Side(data, f, v, true), Side(data, f, v, false);
        if |left| > 0 && |right| > 0 {
          SidesPartition(data, f, v);
          SideBuildable(data, f, v, true, depth, heightLimit);
          SideBuildable(data, f, v, false, depth, heightLimit);
          GrowDepths(left, depth + 1, heightLimit, afterValue);
          var (l, afterLeft) := Grow(left, depth + 1, heightLimit, afterValue).value;
          GrowDepths(right, depth + 1, heightLimit, afterLeft);
          var r := Grow(right, depth + 1, heightLimit, afterLeft).value.0;
          assert Grow(data, depth, heightLimit, draws).value.0 == Internal(f, v, l, r, depth);
        }
      }
    }
  }

  /** Rows that are all the same point. */
  predicate AllSame(data: seq<Row>)
  {
    forall i :: 0 <= i < |data| ==> data[i] == data[0]
  }

  /**
   * On identical rows every feature is constant, so construction stops at
   * once with a single terminal node holding all of them.
   */
  lemma ConstantDataTerminal(data: seq<Row>, depth: nat, heightLimit: nat, draws: seq<Draw>)
    requires Buildable(data, depth, heightLimit) && AllSame(data)
    requires Grow(data, depth, heightLimit, draws).Some?
    ensures Grow(data, depth, heightLimit, draws).value.0 == Terminal(|data|, depth)
  {
    if |data| > 1 && depth < heightLimit {
      var f := draws[0].index;
      ColumnAttained(data, f);
      assert ColumnMin(data, f) == data[0][f] == ColumnMax(data, f);
    }
  }
}
