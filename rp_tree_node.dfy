/** One node of a random-projection tree (rpTreeNode.h): the recursive build
    with its witness subsample, variance-chosen axis and median threshold,
    the single-path descent, the binary layout of a node and the deep copy.

    A node is a value that owns its children: the C++ node is never changed
    after it is built or read, so its raw child pointers become Option fields.
    The random draws are injected: the coin flips of rand() % 2 and the axis
    draws of mt19937 come from the finite streams of an Entropy value. */
module RpTreeNodes {
  import opened Outcomes
  import opened Streams
  import opened Points
  import opened Sorting

  /** node_points, left, right, mid_for_node, projection_for_node and Ns. */
  datatype RpTreeNode = RpTreeNode(
    points: set<Point>,
    left: Option<RpTreeNode>,
    right: Option<RpTreeNode>,
    mid: int,
    axis: int,
    ns: int)

  /** A childless node with the default mid_for_node and projection_for_node. */
  function Leaf(points: set<Point>, ns: int): RpTreeNode {
    RpTreeNode(points, None, None, 0, 0, ns)
  }

  /** The random draws left for a build: rand() values for the witness coin
      flips and mt19937 values for the axis trials, consumed front first. */
  datatype Entropy = Entropy(coins: seq<nat>, trials: seq<nat>)

  predicate IsSuffix(a: seq<nat>, b: seq<nat>) {
    |a| <= |b| && a == b[|b| - |a|..]
  }

  /** `rest` is what remains of `ent` after some draws. */
  predicate Drawn(rest: Entropy, ent: Entropy) {
    IsSuffix(rest.coins, ent.coins) && IsSuffix(rest.trials, ent.trials)
  }

  lemma DrawnTransitive(a: Entropy, b: Entropy, c: Entropy)
    requires Drawn(a, b) && Drawn(b, c)
    ensures Drawn(a, c)
  {
    assert c.coins[|c.coins| - |a.coins|..] == c.coins[|c.coins| - |b.coins|..][|b.coins| - |a.coins|..];
    assert c.trials[|c.trials| - |a.trials|..] == c.trials[|c.trials| - |b.trials|..][|b.trials| - |a.trials|..];
  }

  lemma SubsetCardinality(a: set<Point>, b: set<Point>)
    requires a <= b
    ensures |a| <= |b|
  {
    assert b == a + (b - a);
  }

  /** Points of dimension 0 are all the same point. */
  lemma ZeroDimensionIsSingleton(s: set<Point>)
    requires UniformDimension(s, 0)
    ensures |s| <= 1
  {
    forall p | p in s
      ensures p == Point([])
    {
      assert |p.coords| == 0;
    }
    SubsetCardinality(s, {Point([])});
  }

  // ---------------------------------------------------------------------------
  // The witness sample

  /** The points of xs whose coin (the rand() value drawn for it) is odd. */
  function Selected(xs: seq<Point>, cs: seq<nat>): set<Point>
    requires |cs| == |xs|
    decreases |xs|
  {
    if xs == [] then {}
    else
      Selected(xs[..|xs| - 1], cs[..|cs| - 1])
      + (if cs[|cs| - 1] % 2 != 0 then {xs[|xs| - 1]} else {})
  }

  /** The witnesses one pass over U keeps with the coins cs. */
  ghost function CoinSelection(U: set<Point>, cs: seq<nat>): set<Point>
    requires |cs| == |U|
  {
    OrderedLength(U);
    Selected(Ordered(U), cs)
  }

  lemma OrderedLength(U: set<Point>)
    ensures |Ordered(U)| == |U|
  {
    OrderedFacts(U);
  }

  /** Every point a pass keeps is one of the points walked. */
  lemma {:induction false} SelectedWithin(xs: seq<Point>, cs: seq<nat>)
    requires |cs| == |xs|
    ensures forall p :: p in Selected(xs, cs) ==> p in xs
    decreases |xs|
  {
    if xs != [] {
      SelectedWithin(xs[..|xs| - 1], cs[..|cs| - 1]);
    }
  }

  lemma SelectedStep(xs: seq<Point>, cs: seq<nat>, i: nat)
    requires |cs| == |xs| && i < |xs|
    ensures Selected(xs[..i + 1], cs[..i + 1])
         == Selected(xs[..i], cs[..i]) + (if cs[i] % 2 != 0 then {xs[i]} else {})
  {
    assert xs[..i + 1][..i] == xs[..i] && cs[..i + 1][..i] == cs[..i];
  }

  /** The first `used` coins are a whole number of passes over U, each of
      which kept fewer than ns points: the passes the retry loop draws and
      throws away. */
  ghost predicate ShortPasses(U: set<Point>, ns: int, coins: seq<nat>, used: nat)
    requires used <= |coins|
    decreases used
  {
    || used == 0
    || (&& 0 < |U| <= used
        && |CoinSelection(U, coins[used - |U|..used])| < ns
        && ShortPasses(U, ns, coins, used - |U|))
  }

  /** Short passes use a multiple of |U| coins. */
  lemma {:induction false} ShortPassesAreWhole(U: set<Point>, ns: int, coins: seq<nat>, used: nat)
    requires 0 < |U| && used <= |coins| && ShortPasses(U, ns, coins, used)
    ensures used % |U| == 0
    decreases used
  {
    if used != 0 {
      ShortPassesAreWhole(U, ns, coins, used - |U|);
      WholeStep(used - |U|, |U|);
    }
  }

  /** One more whole pass keeps the count of coins a multiple of |U|. */
  lemma WholeStep(a: nat, n: nat)
    requires 0 < n && a % n == 0
    ensures (a + n) % n == 0
  {
    var p, q, r := a / n, (a + n) / n, (a + n) % n;
    assert a == n * p;
    assert a + n == n * q + r;
    assert r == n * (p + 1 - q);
    MultipleBelow(n, p + 1 - q);
  }

  /** A multiple of n in [0, n) is 0. */
  lemma MultipleBelow(n: int, k: int)
    requires 0 < n && 0 <= n * k < n
    ensures k == 0
  {
  }

  /** The retry loop for |U| >= 2 * Ns: every pass walks U in set order,
      keeping each point whose coin is odd, until a pass keeps Ns points.
      W is the selection of the first such pass; every pass before it kept
      fewer than Ns points, and the loop fails only after every complete
      pass did. */
  method DrawWitness(U: set<Point>, ns: int, coins: seq<nat>) returns (r: Result<set<Point>>, rest: seq<nat>)
    requires 1 <= ns && 2 * ns <= |U|
    ensures IsSuffix(rest, coins)
    ensures (|coins| - |rest|) % |U| == 0
    ensures r.Failure? ==> r.error == RandomExhausted && |rest| < |U|
    ensures r.Failure? ==> ShortPasses(U, ns, coins, |coins| - |rest|)
    ensures r.Success? ==> r.value <= U && ns <= |r.value|
    ensures r.Success? ==> |rest| + |U| <= |coins|
    ensures r.Success? && |rest| + |U| <= |coins| ==>
              && r.value == CoinSelection(U, coins[|coins| - |rest| - |U|..|coins| - |rest|])
              && ShortPasses(U, ns, coins, |coins| - |rest| - |U|)
  {
    var used: nat := 0;
    while true
      invariant used <= |coins| && ShortPasses(U, ns, coins, used)
      decreases |coins| - used
    {
      if |coins| - used < |U| {
        ShortPassesAreWhole(U, ns, coins, used);
        return Failure(RandomExhausted), coins[used..];
      }
      var pass := coins[used..used + |U|];
      var W := CoinPass(U, pass);
      if |W| >= ns {
        CoinSelectionWithin(U, pass);
        ShortPassesAreWhole(U, ns, coins, used);
        WholeStep(used, |U|);
        return Success(W), coins[used + |U|..];
      }
      used := used + |U|;
    }
  }

  /** Every witness a pass keeps is a point of U. */
  lemma CoinSelectionWithin(U: set<Point>, cs: seq<nat>)
    requires |cs| == |U|
    ensures CoinSelection(U, cs) <= U
  {
    OrderedFacts(U);
    SelectedWithin(Ordered(U), cs);
  }

  /** One pass of the for loop over U: a coin per point, in set order. */
  method CoinPass(U: set<Point>, cs: seq<nat>) returns (W: set<Point>)
    requires |cs| == |U|
    ensures W == CoinSelection(U, cs)
  {
    var xs := Elements(U);
    OrderedFacts(U);
    W := {};
    for i := 0 to |xs|
      invariant W == Selected(xs[..i], cs[..i])
    {
      SelectedStep(xs, cs, i);
      if cs[i] % 2 != 0 {
        W := W + {xs[i]};
      }
    }
    assert xs[..|xs|] == xs && cs[..|cs|] == cs;
  }

  // ---------------------------------------------------------------------------
  // Choice of the split axis

  /** `x / W.size()` in the source: the int x is converted to the 64-bit
      unsigned size type, divided, and the quotient converted back to int. */
  function SizeDiv(x: int, n: nat): int
    requires n > 0
  {
    Wrap32((x % 0x1_0000_0000_0000_0000) / n)
  }

  /** Conversion of an unsigned value to a 32-bit int. */
  function Wrap32(v: int): int {
    var m := v % 0x1_0000_0000;
    if m >= 0x8000_0000 then m - 0x1_0000_0000 else m
  }

  predicate AxisWithin(xs: seq<Point>, a: nat) {
    forall i :: 0 <= i < |xs| ==> a < |xs[i].coords|
  }

  /** Every point of W has a coordinate on axis a. */
  predicate HasAxis(W: set<Point>, a: nat) {
    forall p :: p in W ==> a < |p.coords|
  }

  lemma OrderedHasAxis(W: set<Point>, a: nat)
    requires HasAxis(W, a)
    ensures |Ordered(W)| == |W| && AxisWithin(Ordered(W), a)
  {
    OrderedFacts(W);
    assert forall i :: 0 <= i < |Ordered(W)| ==> Ordered(W)[i] in W;
  }

  /** Extending a prefix of xs by one point extends both sums by its term. */
  lemma PrefixStep(xs: seq<Point>, i: nat, a: nat, avg: int)
    requires AxisWithin(xs, a) && i < |xs|
    ensures AxisWithin(xs[..i], a) && AxisWithin(xs[..i + 1], a)
    ensures SumAt(xs[..i + 1], a) == SumAt(xs[..i], a) + xs[i].coords[a]
    ensures SpreadAt(xs[..i + 1], a, avg)
         == SpreadAt(xs[..i], a, avg) + (avg - xs[i].coords[a]) * (avg - xs[i].coords[a])
  {
    assert xs[..i + 1][..i] == xs[..i];
  }

  /** all_sum: the coordinates on axis a, added in iteration order. */
  function SumAt(xs: seq<Point>, a: nat): int
    requires AxisWithin(xs, a)
    decreases |xs|
  {
    if xs == [] then 0 else SumAt(xs[..|xs| - 1], a) + xs[|xs| - 1].coords[a]
  }

  /** sum_disp: the squared deviations from avg on axis a. */
  function SpreadAt(xs: seq<Point>, a: nat, avg: int): int
    requires AxisWithin(xs, a)
    decreases |xs|
  {
    if xs == [] then 0
    else
      var c := xs[|xs| - 1].coords[a];
      SpreadAt(xs[..|xs| - 1], a, avg) + (avg - c) * (avg - c)
  }

  /** iDisp: the integer variance of W's projections on axis a. */
  ghost function Score(W: set<Point>, a: nat): int
    requires W != {} && HasAxis(W, a)
  {
    OrderedHasAxis(W, a);
    var xs := Ordered(W);
    SizeDiv(SpreadAt(xs, a, SizeDiv(SumAt(xs, a), |W|)), |W|)
  }

  /** Score of W on the axis named by the draw t. */
  ghost function TrialScore(W: set<Point>, t: nat, d: nat): int
    requires W != {} && d >= 1 && UniformDimension(W, d)
  {
    Score(W, t % d)
  }

  /** `a` is whichProjection's answer for the draws: 0 when no trial scores
      above 0; otherwise the axis of the first trial reaching the best score. */
  ghost predicate IsChosenAxis(W: set<Point>, draws: seq<nat>, d: nat, a: int)
    requires W != {} && d >= 1 && UniformDimension(W, d)
  {
    && ((forall k :: 0 <= k < |draws| ==> TrialScore(W, draws[k], d) <= 0) ==> a == 0)
    && ((exists k :: 0 <= k < |draws| && TrialScore(W, draws[k], d) > 0) ==>
         exists j :: 0 <= j < |draws| && a == draws[j] % d && TrialScore(W, draws[j], d) > 0
           && (forall k :: 0 <= k < |draws| ==> TrialScore(W, draws[k], d) <= TrialScore(W, draws[j], d))
           && (forall k :: 0 <= k < j ==> TrialScore(W, draws[k], d) < TrialScore(W, draws[j], d)))
  }

  /** The body of one trial: avg, then the dispersion about it. */
  method AxisScore(W: set<Point>, num: nat) returns (iDisp: int)
    requires W != {} && HasAxis(W, num)
    ensures iDisp == Score(W, num)
  {
    var xs := Elements(W);
    OrderedHasAxis(W, num);
    var allSum := 0;
    for i := 0 to |xs|
      invariant AxisWithin(xs[..i], num) && allSum == SumAt(xs[..i], num)
    {
      PrefixStep(xs, i, num, 0);
      allSum := allSum + xs[i].coords[num];
    }
    assert xs[..|xs|] == xs;
    var avg := SizeDiv(allSum, |W|);
    var sumDisp := 0;
    for i := 0 to |xs|
      invariant AxisWithin(xs[..i], num) && sumDisp == SpreadAt(xs[..i], num, avg)
    {
      PrefixStep(xs, i, num, avg);
      sumDisp := sumDisp + (avg - xs[i].coords[num]) * (avg - xs[i].coords[num]);
    }
    iDisp := SizeDiv(sumDisp, |W|);
  }

  /** whichProjection(W, nTry): nTry trials, each on the axis `draw % D`,
      keeping the axis whose score is strictly the best so far. */
  method WhichProjection(W: set<Point>, nTry: int, trials: seq<nat>, ghost d: nat) returns (r: Result<int>, rest: seq<nat>)
    requires W != {} && d >= 1 && UniformDimension(W, d)
    ensures IsSuffix(rest, trials)
    ensures r.Failure? <==> |trials| < nTry
    ensures r.Failure? ==> r.error == RandomExhausted
    ensures r.Success? ==> var n := if nTry > 0 then nTry else 0;
      rest == trials[n..] && 0 <= r.value < d && IsChosenAxis(W, trials[..n], d, r.value)
  {
    var first := TakeLeast(W);
    var dimension := Dimension(first);
    var resDisp := 0;
    var resPr := 0;
    ghost var best := -1;
    var i := 0;
    while i < nTry
      invariant 0 <= i <= |trials| && (i <= nTry || i == 0)
      invariant best == -1 ==> resDisp == 0 && resPr == 0
      invariant best == -1 ==> forall k :: 0 <= k < i ==> TrialScore(W, trials[k], d) <= 0
      invariant best != -1 ==> 0 <= best < i && resPr == trials[best] % d
      invariant best != -1 ==> resDisp == TrialScore(W, trials[best], d) > 0
      invariant best != -1 ==> forall k :: 0 <= k < i ==> TrialScore(W, trials[k], d) <= resDisp
      invariant best != -1 ==> forall k :: 0 <= k < best ==> TrialScore(W, trials[k], d) < resDisp
      invariant 0 <= resPr < d
    {
      if i == |trials| {
        return Failure(RandomExhausted), trials[i..];
      }
      var num := trials[i] % dimension;
      var iDisp := AxisScore(W, num);
      if iDisp > resDisp {
        resDisp := iDisp;
        resPr := num;
        best := i;
      }
      i := i + 1;
    }
    var n := if nTry > 0 then nTry else 0;
    assert i == n;
    assert trials[..n][..] == trials[..n];
    if best != -1 {
      assert 0 <= best < n && trials[..n][best] == trials[best];
    }
    return Success(resPr), trials[n..];
  }

  // ---------------------------------------------------------------------------
  // Threshold and partition of the witness set

  /** W_projection before sorting: the coordinates on axis a in iteration order. */
  function Projections(xs: seq<Point>, a: nat): (r: seq<int>)
    requires AxisWithin(xs, a)
    ensures |r| == |xs|
    ensures forall i :: 0 <= i < |xs| ==> r[i] == xs[i].coords[a]
  {
    seq(|xs|, i requires 0 <= i < |xs| => xs[i].coords[a])
  }

  /** W_projection after std::sort. */
  ghost function SortedProjections(W: set<Point>, a: nat): (r: seq<int>)
    requires HasAxis(W, a)
    ensures |r| == |W|
  {
    OrderedHasAxis(W, a);
    SortBy(Projections(Ordered(W), a), Identity)
  }

  /** mid_for_node: the middle element (index size / 2) of the sorted
      projections of W; it is the projection of some point of W. */
  method Threshold(W: set<Point>, axis: nat) returns (mid: int)
    requires W != {} && HasAxis(W, axis)
    ensures mid == SortedProjections(W, axis)[|W| / 2]
    ensures exists p :: p in W && p.coords[axis] == mid
  {
    var projection := ProjectionsOf(W, axis);
    var sorted := SortBy(projection, Identity);
    mid := sorted[|sorted| / 2];
    MedianIsProjection(W, axis);
  }

  /** The loop filling W_projection. */
  method ProjectionsOf(W: set<Point>, axis: nat) returns (projection: seq<int>)
    requires HasAxis(W, axis)
    ensures |Ordered(W)| == |W| && AxisWithin(Ordered(W), axis)
    ensures projection == Projections(Ordered(W), axis)
  {
    var xs := Elements(W);
    OrderedHasAxis(W, axis);
    projection := [];
    for i := 0 to |xs|
      invariant AxisWithin(xs[..i], axis) && projection == Projections(xs[..i], axis)
    {
      assert xs[..i + 1][..i] == xs[..i];
      projection := projection + [xs[i].coords[axis]];
    }
    assert xs[..|xs|] == xs;
  }

  /** The middle of the sorted projections is the projection of a point of W. */
  lemma MedianIsProjection(W: set<Point>, axis: nat)
    requires W != {} && HasAxis(W, axis)
    ensures exists p :: p in W && p.coords[axis] == SortedProjections(W, axis)[|W| / 2]
  {
    OrderedHasAxis(W, axis);
    OrderedFacts(W);
    var projection := Projections(Ordered(W), axis);
    var mid := SortedProjections(W, axis)[|W| / 2];
    assert mid in multiset(projection);
    var k :| 0 <= k < |projection| && projection[k] == mid;
    assert Ordered(W)[k] in W;
  }

  /** WL and WR: the witnesses below the threshold and the rest. */
  method Partition(W: set<Point>, axis: nat, mid: int) returns (wl: set<Point>, wr: set<Point>)
    requires HasAxis(W, axis)
    ensures wl == set p | p in W && p.coords[axis] < mid
    ensures wr == set p | p in W && mid <= p.coords[axis]
  {
    var xs := Elements(W);
    OrderedFacts(W);
    wl, wr := {}, {};
    for i := 0 to |xs|
      invariant wl == set p | p in xs[..i] && p.coords[axis] < mid
      invariant wr == set p | p in xs[..i] && mid <= p.coords[axis]
    {
      PartitionStep(xs, i, axis, mid);
      if xs[i].coords[axis] < mid {
        wl := wl + {xs[i]};
      } else {
        wr := wr + {xs[i]};
      }
    }
    assert xs[..|xs|] == xs;
  }

  /** One more point of the walk joins the half its projection belongs to. */
  lemma PartitionStep(xs: seq<Point>, i: nat, axis: nat, mid: int)
    requires i < |xs| && AxisWithin(xs, axis)
    ensures (set p | p in xs[..i + 1] && p.coords[axis] < mid)
         == (set p | p in xs[..i] && p.coords[axis] < mid) + (if xs[i].coords[axis] < mid then {xs[i]} else {})
    ensures (set p | p in xs[..i + 1] && mid <= p.coords[axis])
         == (set p | p in xs[..i] && mid <= p.coords[axis]) + (if mid <= xs[i].coords[axis] then {xs[i]} else {})
  {
    assert xs[..i + 1] == xs[..i] + [xs[i]];
  }

  // ---------------------------------------------------------------------------
  // The recursive build

  /** What the build constructor guarantees of every node of the tree it
      makes from a point set of dimension d with leaf size ns: a node of at
      most ns points is a leaf, and every larger node is made with the split
      the constructor chooses for its points (SplitBy). */
  ghost predicate WellBuilt(n: RpTreeNode, ns: int, d: nat)
    decreases n, 1
  {
    && n.ns == ns
    && UniformDimension(n.points, d)
    && (n.left.Some? <==> n.right.Some?)
    && (|n.points| <= ns ==> n == Leaf(n.points, ns))
    && (|n.points| > ns ==> exists sp :: SplitBy(n, sp, ns, d))
  }

  /** The shape of a well-built node that is not a leaf: the axis is one of
      its coordinates, and its children hold disjoint, non-empty parts of
      its points. */
  lemma SplitShape(n: RpTreeNode, ns: int, d: nat)
    requires WellBuilt(n, ns, d) && |n.points| > ns
    ensures 0 <= n.axis < d
    ensures n.left.Some? ==>
      var L := n.left.value.points;
      var R := n.right.value.points;
      && L != {} && R != {} && L !! R && L <= n.points && R <= n.points
      && WellBuilt(n.left.value, ns, d) && WellBuilt(n.right.value, ns, d)
  {
    var sp :| SplitBy(n, sp, ns, d);
  }

  /** n is the node the constructor makes from its points with the split sp:
      it keeps sp's axis and threshold, and it has children, well built
      from WL and WR, exactly when neither half is empty. */
  ghost predicate SplitBy(n: RpTreeNode, sp: Split, ns: int, d: nat)
    requires UniformDimension(n.points, d)
    decreases n, 0
  {
    && ChosenSplit(sp, n.points, ns, d)
    && n.axis == sp.axis && n.mid == sp.mid
    && (n.left.Some? <==> sp.left != {} && sp.right != {})
    && (n.left.Some? ==> n.left.value.points == sp.left && WellBuilt(n.left.value, ns, d))
    && (n.right.Some? ==> n.right.value.points == sp.right && WellBuilt(n.right.value, ns, d))
  }

  /** What the constructor computes for a node it splits: the witness set W,
      the axis, the threshold and the halves WL and WR of W. */
  datatype Split = Split(sample: set<Point>, axis: int, mid: int, left: set<Point>, right: set<Point>)

  /** The facts about a split that the tree's shape depends on. */
  ghost predicate IsSplitOf(sp: Split, U: set<Point>, ns: int, d: nat)
    requires UniformDimension(U, d)
  {
    && 0 <= sp.axis < d
    && sp.left !! sp.right && sp.left + sp.right == sp.sample && sp.sample <= U
    && (|U| < 2 * ns ==> sp.sample == U)
    && ns <= |sp.sample|
    && (forall p :: p in sp.left ==> p.coords[sp.axis] < sp.mid)
    && (forall p :: p in sp.right ==> sp.mid <= p.coords[sp.axis])
    && (exists p :: p in sp.right && p.coords[sp.axis] == sp.mid)
  }

  /** sp splits its witness set W at the middle of W's sorted projections
      on the axis whichProjection picks in the trials ts: WL holds the
      witnesses below the threshold and WR the rest. */
  ghost predicate MedianSplit(sp: Split, ts: seq<nat>, d: nat) {
    && sp.sample != {} && 1 <= d && UniformDimension(sp.sample, d) && 0 <= sp.axis < d
    && IsChosenAxis(sp.sample, ts, d, sp.axis)
    && sp.mid == SortedProjections(sp.sample, sp.axis)[|sp.sample| / 2]
    && sp.left == (set p | p in sp.sample && p.coords[sp.axis] < sp.mid)
    && sp.right == (set p | p in sp.sample && sp.mid <= p.coords[sp.axis])
  }

  /** sp is what the constructor computes from U: a witness set drawn from
      U (IsSample), split at its median on the axis chosen in some D / 2
      trials (MedianSplit). */
  ghost predicate ChosenSplit(sp: Split, U: set<Point>, ns: int, d: nat)
    requires UniformDimension(U, d)
  {
    && IsSplitOf(sp, U, ns, d)
    && IsSample(sp.sample, U, ns)
    && (exists ts :: |ts| == d / 2 && MedianSplit(sp, ts, d))
  }

  lemma ChosenSplitOf(sp: Split, U: set<Point>, ns: int, d: nat, ts: seq<nat>)
    requires UniformDimension(U, d) && IsSample(sp.sample, U, ns)
    requires |ts| == d / 2 && MedianSplit(sp, ts, d)
    ensures ChosenSplit(sp, U, ns, d)
  {
    MedianIsProjection(sp.sample, sp.axis);
    PartitionIsSplit(U, ns, d, sp);
  }

  /** The halves of W at its own median point form a split of U. */
  lemma PartitionIsSplit(U: set<Point>, ns: int, d: nat, sp: Split)
    requires UniformDimension(U, d) && 0 <= sp.axis < d
    requires sp.sample <= U && (|U| < 2 * ns ==> sp.sample == U) && ns <= |sp.sample|
    requires exists p :: p in sp.sample && p.coords[sp.axis] == sp.mid
    requires sp.left == (set p | p in sp.sample && p.coords[sp.axis] < sp.mid)
    requires sp.right == (set p | p in sp.sample && sp.mid <= p.coords[sp.axis])
    ensures IsSplitOf(sp, U, ns, d)
  {
    var m :| m in sp.sample && m.coords[sp.axis] == sp.mid;
    assert m in sp.right;
    assert sp.left + sp.right == sp.sample;
  }

  /** W is a witness set the constructor can draw from U: all of U below
      2 * Ns points, otherwise the coin selection of one pass over U, and
      at least Ns points either way. */
  ghost predicate IsSample(W: set<Point>, U: set<Point>, ns: int) {
    && W <= U && ns <= |W|
    && (|U| < 2 * ns ==> W == U)
    && (|U| >= 2 * ns ==> exists cs :: |cs| == |U| && W == CoinSelection(U, cs))
  }

  /** The witness draw of the constructor: the retry loop for U of at least
      2 * Ns points, all of U otherwise. */
  method DrawSample(U: set<Point>, ns: int, coins: seq<nat>) returns (r: Result<set<Point>>, rest: seq<nat>)
    requires 0 < ns < |U|
    ensures IsSuffix(rest, coins)
    ensures r.Failure? ==> r.error == RandomExhausted && |U| >= 2 * ns
    ensures |U| < 2 * ns ==> r == Success(U) && rest == coins
    ensures r.Success? ==> IsSample(r.value, U, ns)
  {
    if |U| >= 2 * ns {
      r, rest := DrawWitness(U, ns, coins);
      if r.Success? {
        ghost var cs := coins[|coins| - |rest| - |U|..|coins| - |rest|];
        assert |cs| == |U| && r.value == CoinSelection(U, cs);
      }
    } else {
      r, rest := Success(U), coins;
    }
  }

  /** The rest of the split once W is drawn: the axis whichProjection picks
      in nTry trials, the middle of W's sorted projections on it, and the
      witnesses below it and the rest. */
  method SplitSample(W: set<Point>, nTry: int, trials: seq<nat>, ghost d: nat) returns (r: Result<Split>, rest: seq<nat>)
    requires W != {} && d >= 1 && UniformDimension(W, d)
    ensures IsSuffix(rest, trials)
    ensures r.Failure? <==> |trials| < nTry
    ensures r.Failure? ==> r.error == RandomExhausted
    ensures r.Success? ==> var n := if nTry > 0 then nTry else 0;
      r.value.sample == W && rest == trials[n..] && MedianSplit(r.value, trials[..n], d)
  {
    var axisResult;
    axisResult, rest := WhichProjection(W, nTry, trials, d);
    if axisResult.Failure? {
      return Failure(axisResult.error), rest;
    }
    var axis := axisResult.value;
    var mid := Threshold(W, axis);
    var wl, wr := Partition(W, axis, mid);
    return Success(Split(W, axis, mid, wl, wr)), rest;
  }

  /** The part of the constructor between the size test and the recursive
      calls: draw W (all of U below 2 * Ns points), choose the axis from
      U's dimension / 2 trials, take the median and partition W. */
  method ChooseSplit(U: set<Point>, ns: int, ghost d: nat, ent: Entropy) returns (r: Result<Split>, rest: Entropy)
    requires 0 < ns < |U| && 1 <= d && UniformDimension(U, d)
    ensures Drawn(rest, ent)
    ensures r.Failure? ==> r.error == RandomExhausted
    ensures r.Success? ==> ChosenSplit(r.value, U, ns, d)
    ensures r.Success? ==>
      && |ent.trials| >= d / 2 && rest.trials == ent.trials[d / 2..]
      && MedianSplit(r.value, ent.trials[..d / 2], d)
  {
    rest := ent;
    var w, coins := DrawSample(U, ns, rest.coins);
    rest := rest.(coins := coins);
    if w.Failure? {
      return Failure(w.error), rest;
    }
    var W := w.value;
    SubsetCardinality(W, U);
    var first := TakeLeast(U);
    var split, trialsLeft := SplitSample(W, Dimension(first) / 2, rest.trials, d);
    rest := rest.(trials := trialsLeft);
    if split.Failure? {
      return Failure(split.error), rest;
    }
    var sp := split.value;
    ChosenSplitOf(sp, U, ns, d, ent.trials[..d / 2]);
    return Success(sp), rest;
  }

  /** RpTreeNode(U, min_W_size): throws on a non-positive leaf size; a set
      of at most Ns points is a leaf; otherwise the node is split and both
      halves are built recursively when neither is empty. Every node keeps
      its whole input U. */
  method BuildNode(U: set<Point>, minWSize: int, ghost d: nat, ent: Entropy) returns (r: Result<RpTreeNode>, rest: Entropy)
    requires UniformDimension(U, d)
    ensures Drawn(rest, ent)
    ensures minWSize <= 0 ==> r == Failure(InvalidParameter)
    ensures 0 < minWSize && |U| <= minWSize ==> r == Success(Leaf(U, minWSize)) && rest == ent
    ensures r.Failure? ==> r.error == (if minWSize <= 0 then InvalidParameter else RandomExhausted)
    ensures r.Success? ==> r.value.points == U && WellBuilt(r.value, minWSize, d)
    decreases |U|
  {
    rest := ent;
    if minWSize <= 0 {
      return Failure(InvalidParameter), rest;
    }
    if |U| <= minWSize {
      return Success(Leaf(U, minWSize)), rest;
    }
    if d == 0 {
      ZeroDimensionIsSingleton(U);
      assert false;
    }
    var split;
    split, rest := ChooseSplit(U, minWSize, d, ent);
    if split.Failure? {
      return Failure(split.error), rest;
    }
    var sp := split.value;
    if sp.left != {} && sp.right != {} {
      HalvesAreSmaller(sp, U, minWSize, d);
      var leftResult, rest1 := BuildNode(sp.left, minWSize, d, rest);
      DrawnTransitive(rest1, rest, ent);
      if leftResult.Failure? {
        return Failure(leftResult.error), rest1;
      }
      var rightResult, rest2 := BuildNode(sp.right, minWSize, d, rest1);
      DrawnTransitive(rest2, rest1, ent);
      if rightResult.Failure? {
        return Failure(rightResult.error), rest2;
      }
      SplitNodeIsWellBuilt(U, sp, minWSize, d, Some(leftResult.value), Some(rightResult.value));
      return Success(RpTreeNode(U, Some(leftResult.value), Some(rightResult.value), sp.mid, sp.axis, minWSize)), rest2;
    }
    SplitNodeIsWellBuilt(U, sp, minWSize, d, None, None);
    return Success(RpTreeNode(U, None, None, sp.mid, sp.axis, minWSize)), rest;
  }

  /** Both non-empty halves of a split have fewer points than U, all of U's
      dimension. */
  lemma HalvesAreSmaller(sp: Split, U: set<Point>, ns: int, d: nat)
    requires UniformDimension(U, d) && ChosenSplit(sp, U, ns, d) && sp.left != {} && sp.right != {}
    ensures |sp.left| < |U| && |sp.right| < |U|
    ensures UniformDimension(sp.left, d) && UniformDimension(sp.right, d)
  {
    assert |sp.left + sp.right| == |sp.left| + |sp.right|;
    SubsetCardinality(sp.sample, U);
  }

  /** A node above the leaf size, made with a chosen split and, when both
      halves are non-empty, children built from them, is well built. */
  lemma SplitNodeIsWellBuilt(U: set<Point>, sp: Split, ns: int, d: nat, l: Option<RpTreeNode>, r: Option<RpTreeNode>)
    requires UniformDimension(U, d) && 0 < ns < |U| && ChosenSplit(sp, U, ns, d)
    requires (l.Some? <==> sp.left != {} && sp.right != {}) && (l.Some? <==> r.Some?)
    requires l.Some? ==> l.value.points == sp.left && WellBuilt(l.value, ns, d)
    requires r.Some? ==> r.value.points == sp.right && WellBuilt(r.value, ns, d)
    ensures WellBuilt(RpTreeNode(U, l, r, sp.mid, sp.axis, ns), ns, d)
  {
    assert SplitBy(RpTreeNode(U, l, r, sp.mid, sp.axis, ns), sp, ns, d);
  }

  /** Every child is built from strictly fewer points than its parent, the
      measure on which the build recursion terminates. */
  lemma ChildrenAreSmaller(n: RpTreeNode, ns: int, d: nat)
    requires WellBuilt(n, ns, d) && n.left.Some?
    ensures |n.left.value.points| < |n.points| && |n.right.value.points| < |n.points|
  {
    SplitShape(n, ns, d);
    var L, R := n.left.value.points, n.right.value.points;
    assert |L + R| == |L| + |R|;
    SubsetCardinality(L + R, n.points);
  }

  // ---------------------------------------------------------------------------
  // Descent

  /** Every coordinate the descent of q reads exists. */
  predicate CanDescend(n: RpTreeNode, q: Point)
    decreases n
  {
    && 0 <= n.axis < Dimension(q)
    && (q.coords[n.axis] < n.mid && n.left.Some? ==> CanDescend(n.left.value, q))
    && (n.mid <= q.coords[n.axis] && n.right.Some? ==> CanDescend(n.right.value, q))
  }

  /** TreeDownhill: left when q is below the threshold, right otherwise,
      until the chosen child is missing; that node's points are returned. */
  function TreeDownhill(n: RpTreeNode, q: Point): set<Point>
    requires CanDescend(n, q)
    decreases n
  {
    if q.coords[n.axis] < n.mid then
      if n.left.None? then n.points else TreeDownhill(n.left.value, q)
    else
      if n.right.None? then n.points else TreeDownhill(n.right.value, q)
  }

  /** The point sets of the childless nodes of a tree. */
  ghost function LeafBags(n: RpTreeNode): set<set<Point>>
    decreases n
  {
    (if n.left.None? && n.right.None? then {n.points} else {})
    + (if n.left.Some? then LeafBags(n.left.value) else {})
    + (if n.right.Some? then LeafBags(n.right.value) else {})
  }

  /** A built tree can be queried with any point of its dimension. */
  lemma {:induction false} BuiltTreeIsQueryable(n: RpTreeNode, ns: int, d: nat, q: Point)
    requires WellBuilt(n, ns, d) && 1 <= d && Dimension(q) == d
    ensures CanDescend(n, q)
    decreases n
  {
    if |n.points| > ns {
      SplitShape(n, ns, d);
    }
    if n.left.Some? {
      BuiltTreeIsQueryable(n.left.value, ns, d, q);
      BuiltTreeIsQueryable(n.right.value, ns, d, q);
    }
  }

  /** In a built tree the descent ends at a leaf, and every leaf bag (so
      whatever a query returns) is a subset of the points the root was
      built from. */
  lemma {:induction false} DescentEndsAtLeaf(n: RpTreeNode, ns: int, d: nat, q: Point)
    requires WellBuilt(n, ns, d) && CanDescend(n, q)
    ensures TreeDownhill(n, q) in LeafBags(n)
    ensures TreeDownhill(n, q) <= n.points
    decreases n
  {
    if n.left.Some? {
      SplitShape(n, ns, d);
      if q.coords[n.axis] < n.mid {
        DescentEndsAtLeaf(n.left.value, ns, d, q);
      } else {
        DescentEndsAtLeaf(n.right.value, ns, d, q);
      }
    }
    LeafBagsWithinRoot(n, ns, d);
  }

  lemma LeafBagsWithinRoot(n: RpTreeNode, ns: int, d: nat)
    requires WellBuilt(n, ns, d)
    ensures forall b :: b in LeafBags(n) ==> b <= n.points
  {
    WellBuiltIsNested(n, ns, d);
    NestedLeafBags(n);
  }

  /** Every child holds a subset of its parent's points. */
  ghost predicate Nested(n: RpTreeNode)
    decreases n
  {
    && (n.left.Some? ==> n.left.value.points <= n.points && Nested(n.left.value))
    && (n.right.Some? ==> n.right.value.points <= n.points && Nested(n.right.value))
  }

  lemma {:induction false} WellBuiltIsNested(n: RpTreeNode, ns: int, d: nat)
    requires WellBuilt(n, ns, d)
    ensures Nested(n)
    decreases n
  {
    if n.left.Some? {
      SplitShape(n, ns, d);
      WellBuiltIsNested(n.left.value, ns, d);
      WellBuiltIsNested(n.right.value, ns, d);
    }
  }

  lemma {:induction false} NestedLeafBags(n: RpTreeNode)
    requires Nested(n)
    ensures forall b :: b in LeafBags(n) ==> b <= n.points
    decreases n
  {
    if n.left.Some? {
      NestedLeafBags(n.left.value);
    }
    if n.right.Some? {
      NestedLeafBags(n.right.value);
    }
  }

  // ---------------------------------------------------------------------------
  // Deep copy

  /** CopyNodeFromNode (and the copy constructor and operator= built on it):
      copies the fields and, recursively, each child that exists. */
  function CopyNode(from: RpTreeNode): RpTreeNode
    decreases from
  {
    RpTreeNode(
      from.points,
      if from.left.Some? then Some(CopyNode(from.left.value)) else None,
      if from.right.Some? then Some(CopyNode(from.right.value)) else None,
      from.mid, from.axis, from.ns)
  }

  lemma {:induction false} CopyIsIdentical(n: RpTreeNode)
    ensures CopyNode(n) == n
    decreases n
  {
    if n.left.Some? {
      CopyIsIdentical(n.left.value);
    }
    if n.right.Some? {
      CopyIsIdentical(n.right.value);
    }
  }

  // ---------------------------------------------------------------------------
  // Binary layout of a node

  /** Points written one after the other. */
  function EncodePoints(xs: seq<Point>): seq<Token>
    decreases |xs|
  {
    if xs == [] then [] else EncodePoint(xs[0]) + EncodePoints(xs[1..])
  }

  lemma {:induction false} EncodePointsAppend(xs: seq<Point>, p: Point)
    ensures EncodePoints(xs + [p]) == EncodePoints(xs) + EncodePoint(p)
    decreases |xs|
  {
    if xs == [] {
      assert EncodePoints([p]) == EncodePoint(p) + EncodePoints([]);
    } else {
      assert (xs + [p])[1..] == xs[1..] + [p];
      EncodePointsAppend(xs[1..], p);
    }
  }

  /** WriteNodeTo: size, mid, axis and Ns; the points in set order; then for
      each side a has-child flag followed by the child. */
  ghost function EncodeNode(n: RpTreeNode): seq<Token>
    decreases n
  {
    Header(n) + (EncodePoints(Ordered(n.points)) + (EncodeChild(n.left) + EncodeChild(n.right)))
  }

  function Header(n: RpTreeNode): seq<Token> {
    [Num(|n.points|), Num(n.mid), Num(n.axis), Num(n.ns)]
  }

  /** The has-child flag, followed by the child when there is one. */
  ghost function EncodeChild(c: Option<RpTreeNode>): seq<Token>
    decreases c
  {
    [Flag(c.Some?)] + (if c.Some? then EncodeNode(c.value) else [])
  }

  /** node_points.insert(point): the set compares the new point with the
      ones present, which throws when their dimensions differ. */
  function InsertPoint(acc: set<Point>, p: Point): (r: Result<set<Point>>)
    ensures r.Failure? <==> exists x :: x in acc && Dimension(x) != Dimension(p)
    ensures r.Failure? ==> r.error == DimensionMismatch
    ensures r.Success? ==> r.value == acc + {p}
  {
    if exists x :: x in acc && Dimension(x) != Dimension(p) then Failure(DimensionMismatch)
    else Success(acc + {p})
  }

  /** The loop reading n more points into the set acc; a non-positive n
      reads nothing. */
  function DecodePointSet(s: seq<Token>, n: int, acc: set<Point>): (r: Result<(set<Point>, seq<Token>)>)
    ensures r.Success? ==> |r.value.1| <= |s|
    decreases if n > 0 then n else 0
  {
    if n <= 0 then Success((acc, s))
    else
      var pointRead :- DecodePoint(s);
      var acc1 :- InsertPoint(acc, pointRead.0);
      DecodePointSet(pointRead.1, n - 1, acc1)
  }

  /** ReadNodeFrom applied to a fresh node. */
  function DecodeNode(s: seq<Token>): (r: Result<(RpTreeNode, seq<Token>)>)
    ensures r.Success? ==> |r.value.1| < |s|
    decreases |s|
  {
    var header :- DecodeHeader(s);
    var (size, mid, axis, ns) := header.0;
    var pts :- DecodePointSet(header.1, size, {});
    var left :- DecodeChildAfterFlag(pts.1, s);
    var right :- DecodeChildAfterFlag(left.1, s);
    Success((RpTreeNode(pts.0, left.0, right.0, mid, axis, ns), right.1))
  }

  /** The four ints at the head of a node: size, mid, axis and Ns. */
  function DecodeHeader(s: seq<Token>): (r: Result<((int, int, int, int), seq<Token>)>)
    ensures r.Success? ==> |r.value.1| + 4 == |s|
  {
    var size :- TakeNum(s);
    var mid :- TakeNum(size.1);
    var axis :- TakeNum(mid.1);
    var ns :- TakeNum(axis.1);
    Success(((size.0, mid.0, axis.0, ns.0), ns.1))
  }

  /** A has-child flag, then the child when the flag is set. */
  function DecodeChildAfterFlag(s: seq<Token>, ghost whole: seq<Token>): (r: Result<(Option<RpTreeNode>, seq<Token>)>)
    requires |s| < |whole|
    ensures r.Success? ==> |r.value.1| < |s|
    decreases |whole|, 1
  {
    var flag :- TakeFlag(s);
    DecodeChild(flag.0, flag.1, whole)
  }

  /** The child behind a has-child flag: none, or a node read recursively. */
  function DecodeChild(present: bool, s: seq<Token>, ghost whole: seq<Token>): (r: Result<(Option<RpTreeNode>, seq<Token>)>)
    requires |s| < |whole|
    ensures r.Success? ==> |r.value.1| <= |s|
    decreases |whole|, 0
  {
    if !present then Success((None, s))
    else
      var child :- DecodeNode(s);
      Success((Some(child.0), child.1))
  }

  /** Every node of the tree holds points of dimension d only. */
  ghost predicate NodesUniform(n: RpTreeNode, d: nat)
    decreases n
  {
    && UniformDimension(n.points, d)
    && (n.left.Some? ==> NodesUniform(n.left.value, d))
    && (n.right.Some? ==> NodesUniform(n.right.value, d))
  }

  lemma {:induction false} WellBuiltIsUniform(n: RpTreeNode, ns: int, d: nat)
    requires WellBuilt(n, ns, d)
    ensures NodesUniform(n, d)
    decreases n
  {
    if n.left.Some? {
      SplitShape(n, ns, d);
      WellBuiltIsUniform(n.left.value, ns, d);
      WellBuiltIsUniform(n.right.value, ns, d);
    }
  }

  /** The points of a sequence, as a set. */
  function Members(xs: seq<Point>): (r: set<Point>)
    ensures forall p :: p in r <==> p in xs
  {
    set p | p in xs
  }

  /** Reading back points written in a row inserts each of them. */
  lemma {:induction false} PointSetRoundTrip(xs: seq<Point>, acc: set<Point>, d: nat, rest: seq<Token>)
    requires UniformDimension(acc, d) && forall i :: 0 <= i < |xs| ==> Dimension(xs[i]) == d
    ensures DecodePointSet(EncodePoints(xs) + rest, |xs|, acc) == Success((acc + Members(xs), rest))
    decreases |xs|
  {
    if xs == [] {
      assert EncodePoints(xs) + rest == rest;
      assert acc + Members(xs) == acc;
    } else {
      var tail := EncodePoints(xs[1..]) + rest;
      assert EncodePoints(xs) + rest == EncodePoint(xs[0]) + tail;
      PointRoundTrip(xs[0], tail);
      var acc1 := acc + {xs[0]};
      assert InsertPoint(acc, xs[0]) == Success(acc1);
      PointSetRoundTrip(xs[1..], acc1, d, rest);
      assert acc1 + Members(xs[1..]) == acc + Members(xs) by {
        assert xs == [xs[0]] + xs[1..];
      }
    }
  }

  lemma HeaderRoundTrip(n: RpTreeNode, t: seq<Token>)
    ensures DecodeHeader(Header(n) + t) == Success(((|n.points|, n.mid, n.axis, n.ns), t))
  {
    var s := Header(n) + t;
    assert s[1..][1..][1..][1..] == t;
  }

  /** Reading back what WriteNodeTo wrote yields the same node and leaves
      whatever follows unread. */
  lemma {:induction false} NodeRoundTrip(n: RpTreeNode, d: nat, rest: seq<Token>)
    requires NodesUniform(n, d)
    ensures DecodeNode(EncodeNode(n) + rest) == Success((n, rest))
    decreases n, 1
  {
    var xs := Ordered(n.points);
    OrderedFacts(n.points);
    var afterLeft := EncodeChild(n.right) + rest;
    var afterPoints := EncodeChild(n.left) + afterLeft;
    var afterHeader := EncodePoints(xs) + afterPoints;
    var s := Header(n) + afterHeader;
    FourPartsThenRest(Header(n), EncodePoints(xs), EncodeChild(n.left), EncodeChild(n.right), rest);
    HeaderRoundTrip(n, afterHeader);
    PointSetRoundTrip(xs, {}, d, afterPoints);
    assert {} + Members(xs) == n.points;
    ChildRoundTrip(n.left, d, afterLeft, s);
    ChildRoundTrip(n.right, d, rest, s);
    DecodeNodeParts(n, s, afterHeader, afterPoints, afterLeft, rest);
  }

  /** DecodeNode succeeds with n when each of its four reads does. */
  lemma DecodeNodeParts(n: RpTreeNode, s: seq<Token>, afterHeader: seq<Token>, afterPoints: seq<Token>,
                        afterLeft: seq<Token>, rest: seq<Token>)
    requires DecodeHeader(s) == Success(((|n.points|, n.mid, n.axis, n.ns), afterHeader))
    requires DecodePointSet(afterHeader, |n.points|, {}) == Success((n.points, afterPoints))
    requires |afterPoints| < |s| && DecodeChildAfterFlag(afterPoints, s) == Success((n.left, afterLeft))
    requires |afterLeft| < |s| && DecodeChildAfterFlag(afterLeft, s) == Success((n.right, rest))
    ensures DecodeNode(s) == Success((n, rest))
  {
  }

  lemma {:induction false} ChildRoundTrip(c: Option<RpTreeNode>, d: nat, rest: seq<Token>, whole: seq<Token>)
    requires c.Some? ==> NodesUniform(c.value, d)
    requires |EncodeChild(c) + rest| < |whole|
    ensures DecodeChildAfterFlag(EncodeChild(c) + rest, whole) == Success((c, rest))
    decreases c, 0
  {
    var s := EncodeChild(c) + rest;
    assert s[0] == Flag(c.Some?);
    assert TakeFlag(s) == Success((c.Some?, s[1..]));
    if c.Some? {
      assert s[1..] == EncodeNode(c.value) + rest;
      NodeRoundTrip(c.value, d, rest);
      assert DecodeChild(true, s[1..], whole) == Success((c, rest));
    } else {
      assert s[1..] == rest;
      assert DecodeChild(false, s[1..], whole) == Success((c, rest));
    }
  }

  /** WriteNodeTo: the header, each point in set order, then the children
      behind their flags. */
  method WriteNodeTo(n: RpTreeNode, file: OutStream)
    modifies file
    ensures file.written == old(file.written) + EncodeNode(n)
    decreases n, 1
  {
    ghost var w0 := file.written;
    WriteHeader(n, file);
    ghost var w1 := file.written;
    var xs := Elements(n.points);
    WritePoints(xs, file);
    ghost var w2 := file.written;
    WriteChild(n.left, file);
    ghost var w3 := file.written;
    WriteChild(n.right, file);
    EncodeNodeParts(n, w0, w1, w2, w3, file.written);
  }

  lemma EncodeNodeParts(n: RpTreeNode, w0: seq<Token>, w1: seq<Token>, w2: seq<Token>, w3: seq<Token>, w4: seq<Token>)
    requires w1 == w0 + Header(n) && w2 == w1 + EncodePoints(Ordered(n.points))
    requires w3 == w2 + EncodeChild(n.left) && w4 == w3 + EncodeChild(n.right)
    ensures w4 == w0 + EncodeNode(n)
  {
    var h, p, l, r := Header(n), EncodePoints(Ordered(n.points)), EncodeChild(n.left), EncodeChild(n.right);
    Assoc(w0, h, p);
    Assoc(w0 + h, p, l);
    Assoc(w0, h + p, l);
    Assoc(h, p, l);
    Assoc(w0 + (h + p) + l, r, []);
    assert w3 == w0 + ((h + p) + l);
    Assoc(w0, (h + p) + l, r);
    Assoc(h + p, l, r);
    Assoc(h, p, l + r);
    assert w4 == w0 + (h + (p + (l + r)));
  }

  lemma Assoc(a: seq<Token>, b: seq<Token>, c: seq<Token>)
    ensures (a + b) + c == a + (b + c)
  {
  }

  /** Regrouping the four parts of a node's layout with what follows it. */
  lemma FourPartsThenRest(h: seq<Token>, p: seq<Token>, l: seq<Token>, r: seq<Token>, rest: seq<Token>)
    ensures (h + (p + (l + r))) + rest == h + (p + (l + (r + rest)))
  {
    Assoc(h, p + (l + r), rest);
    Assoc(p, l + r, rest);
    Assoc(l, r, rest);
  }

  method WriteHeader(n: RpTreeNode, file: OutStream)
    modifies file
    ensures file.written == old(file.written) + Header(n)
  {
    file.Write(Num(|n.points|));
    file.Write(Num(n.mid));
    file.Write(Num(n.axis));
    file.Write(Num(n.ns));
  }

  /** The for loop of WriteNodeTo over the node's points. */
  method WritePoints(xs: seq<Point>, file: OutStream)
    modifies file
    ensures file.written == old(file.written) + EncodePoints(xs)
  {
    for i := 0 to |xs|
      invariant file.written == old(file.written) + EncodePoints(xs[..i])
    {
      WritePointTo(xs[i], file);
      assert xs[..i + 1] == xs[..i] + [xs[i]];
      EncodePointsAppend(xs[..i], xs[i]);
    }
    assert xs[..|xs|] == xs;
  }

  /** The has-child flag, and the child after it when there is one. */
  method WriteChild(c: Option<RpTreeNode>, file: OutStream)
    modifies file
    ensures file.written == old(file.written) + EncodeChild(c)
    decreases c, 0
  {
    file.Write(Flag(c.Some?));
    if c.Some? {
      WriteNodeTo(c.value, file);
    }
  }

  /** ReadNodeFrom on a fresh node: the header, that many points inserted
      into an empty set, then each child behind its flag. */
  method ReadNodeFrom(file: InStream) returns (r: Result<RpTreeNode>)
    modifies file
    ensures Delivered(DecodeNode(old(file.rest)), r, file.rest)
    decreases |file.rest|
  {
    ghost var start := file.rest;
    var size := file.ReadNum();
    if size.Failure? {
      return Failure(size.error);
    }
    var mid := file.ReadNum();
    if mid.Failure? {
      return Failure(mid.error);
    }
    var axis := file.ReadNum();
    if axis.Failure? {
      return Failure(axis.error);
    }
    var ns := file.ReadNum();
    if ns.Failure? {
      return Failure(ns.error);
    }
    var points := ReadPointSet(file, size.value);
    if points.Failure? {
      return Failure(points.error);
    }
    var left, right;
    left := ReadChild(file, start);
    if left.Failure? {
      return Failure(left.error);
    }
    right := ReadChild(file, start);
    if right.Failure? {
      return Failure(right.error);
    }
    return Success(RpTreeNode(points.value, left.value, right.value, mid.value, axis.value, ns.value));
  }

  /** The for loop of ReadNodeFrom: n points read and inserted in turn. */
  method ReadPointSet(file: InStream, n: int) returns (r: Result<set<Point>>)
    modifies file
    ensures Delivered(DecodePointSet(old(file.rest), n, {}), r, file.rest)
  {
    var points: set<Point> := {};
    var i := 0;
    while i < n
      invariant 0 <= i <= if n > 0 then n else 0
      invariant DecodePointSet(file.rest, n - i, points) == DecodePointSet(old(file.rest), n, {})
    {
      var point := ReadPointFrom(file);
      if point.Failure? {
        return Failure(point.error);
      }
      var inserted := InsertPoint(points, point.value);
      if inserted.Failure? {
        return Failure(inserted.error);
      }
      points := inserted.value;
      i := i + 1;
    }
    return Success(points);
  }

  /** A has-child flag and, when it is set, the child read recursively. */
  method ReadChild(file: InStream, ghost whole: seq<Token>) returns (r: Result<Option<RpTreeNode>>)
    requires |file.rest| < |whole|
    modifies file
    ensures Delivered(DecodeChildAfterFlag(old(file.rest), whole), r, file.rest)
    decreases |whole|, 0
  {
    var present := file.ReadFlag();
    if present.Failure? {
      return Failure(present.error);
    }
    if !present.value {
      return Success(None);
    }
    var child := ReadNodeFrom(file);
    if child.Failure? {
      return Failure(child.error);
    }
    return Success(Some(child.value));
  }
}
