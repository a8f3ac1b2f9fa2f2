/** A forest of random-projection trees (rpForest.h): the training set, the
    number of trees it promises and the trees themselves; construction,
    approximate k-nearest-neighbour queries and the binary layout. */
module RpForests {
  import opened Outcomes
  import opened Streams
  import opened Points
  import opened Sorting
  import opened RpTreeNodes
  import opened RpTrees

  // ---------------------------------------------------------------------------
  // Construction arithmetic

  /** The leaf size `train.size() * 0.01 > 2 ? train.size() * 0.01 : 2`,
      truncated to int: a hundredth of the set, but at least 2. */
  function LeafSize(n: nat): (r: int)
    ensures r >= 2
    ensures n > 200 ==> r * 100 <= n < (r + 1) * 100
    ensures n <= 200 ==> r == 2
  {
    if n > 200 then n / 100 else 2
  }

  /** C++ int division, which truncates toward zero. */
  function CDiv(a: int, b: int): (r: int)
    requires b > 0
    ensures a >= 0 ==> r == a / b
    ensures a < 0 ==> r == -((-a) / b)
  {
    if a >= 0 then a / b else -((-a) / b)
  }

  function Abs(x: int): nat {
    if x < 0 then -x else x
  }

  function Min(a: int, b: int): int {
    if a < b then a else b
  }

  /** The thread count the threaded constructor settles on: the first count,
      going down from thread_count, that gives every thread at least one
      tree (in absolute value). */
  function ThreadsUsed(howMany: int, threadCount: int): int
    requires howMany != 0 && threadCount > 0
  {
    Min(threadCount, Abs(howMany))
  }

  /** The loop of the threaded constructor: size_for_one_thread is
      how_much / thread_count, and thread_count shrinks while it is 0.
      Unbounded for how_much == 0 (a division by zero), hence the requires. */
  method ThreadPlan(howMany: int, threadCount: int) returns (threads: int, perThread: int)
    requires howMany != 0 && threadCount > 0
    ensures threads == ThreadsUsed(howMany, threadCount) && 1 <= threads <= threadCount
    ensures perThread == CDiv(howMany, threads) && perThread != 0
  {
    threads := threadCount;
    perThread := CDiv(howMany, threads);
    CDivZero(howMany, threads);
    while perThread == 0
      invariant 1 <= threads <= threadCount && perThread == CDiv(howMany, threads)
      invariant perThread == 0 <==> Abs(howMany) < threads
      invariant threads == threadCount || Abs(howMany) <= threads
      decreases threads
    {
      threads := threads - 1;
      perThread := CDiv(howMany, threads);
      CDivZero(howMany, threads);
    }
  }

  lemma MulStep(i: int, n: int)
    ensures (i + 1) * n == i * n + n
  {
  }

  /** A truncating quotient is zero exactly when the dividend is smaller than
      the divisor in absolute value. */
  lemma CDivZero(a: int, b: int)
    requires b > 0
    ensures CDiv(a, b) == 0 <==> Abs(a) < b
  {
    var n := Abs(a);
    assert n == b * (n / b) + n % b;
    if n >= b {
      assert n / b >= 1;
    }
  }

  /** Each of the `threads` threads builds how_much / threads trees, so the
      forest holds how_much trees exactly when the division has no
      remainder, and fewer otherwise. */
  lemma {:induction false} ThreadedTreeCount(howMany: int, threadCount: int)
    requires howMany > 0 && threadCount > 0
    ensures var t := ThreadsUsed(howMany, threadCount);
      CDiv(howMany, t) >= 1
      && t * CDiv(howMany, t) <= howMany
      && (t * CDiv(howMany, t) == howMany <==> howMany % t == 0)
      && howMany - t * CDiv(howMany, t) < t
  {
    var t := ThreadsUsed(howMany, threadCount);
    assert howMany == t * (howMany / t) + howMany % t;
  }

  /** Five trees on two threads: each thread builds 5 / 2 = 2 trees, so the
      forest holds 4 trees while it records 5. */
  lemma ThreadedForestIsShort()
    ensures ThreadsUsed(5, 2) == 2 && CDiv(5, 2) == 2
    ensures ThreadsUsed(5, 2) * CDiv(5, 2) == 4 < 5
  {
    ThreadedTreeCount(5, 2);
  }

  /** The trees assigned to task i when `total` trees are shared among
      `threads` tasks as evenly as possible. */
  function Share(total: nat, threads: int, i: int): (r: nat)
    requires threads > 0
  {
    total / threads + (if i < total % threads then 1 else 0)
  }

  /** The shares of the first m tasks. */
  function SharesUpTo(total: nat, threads: int, m: int): (r: nat)
    requires threads > 0 && 0 <= m <= threads
    decreases m
  {
    if m == 0 then 0 else SharesUpTo(total, threads, m - 1) + Share(total, threads, m - 1)
  }

  /** The even shares add up to the whole. */
  lemma {:induction false} SharesAddUp(total: nat, threads: int, m: int)
    requires threads > 0 && 0 <= m <= threads
    ensures SharesUpTo(total, threads, m) == m * (total / threads) + Min(m, total % threads)
    decreases m
  {
    if m > 0 {
      SharesAddUp(total, threads, m - 1);
    }
  }

  lemma AllSharesAddUp(total: nat, threads: int)
    requires threads > 0
    ensures SharesUpTo(total, threads, threads) == total
  {
    SharesAddUp(total, threads, threads);
    assert total == threads * (total / threads) + total % threads;
  }

  // ---------------------------------------------------------------------------
  // Queries

  /** Every tree has a root whose descent for q reads only existing coordinates. */
  predicate Queryable(ts: seq<RpTree>, q: Point)
    reads ts
  {
    forall i :: 0 <= i < |ts| ==> ts[i].start.Some? && CanDescend(ts[i].start.value, q)
  }

  /** all_knn: the union of the leaves the trees descend to. */
  ghost function Candidates(ts: seq<RpTree>, q: Point): set<Point>
    reads ts
    requires Queryable(ts, q)
    decreases |ts|
  {
    if ts == [] then {} else Candidates(ts[..|ts| - 1], q) + ts[|ts| - 1].FindKnn(q)
  }

  /** A point is a candidate exactly when some tree's leaf holds it, whatever
      the order of the trees. */
  lemma {:induction false} CandidatesAreLeafPoints(ts: seq<RpTree>, q: Point)
    requires Queryable(ts, q)
    ensures forall p :: p in Candidates(ts, q) <==> exists i :: 0 <= i < |ts| && p in ts[i].FindKnn(q)
    decreases |ts|
  {
    if ts != [] {
      var init := ts[..|ts| - 1];
      CandidatesAreLeafPoints(init, q);
      forall p
        ensures p in Candidates(ts, q) <==> exists i :: 0 <= i < |ts| && p in ts[i].FindKnn(q)
      {
        if p in Candidates(init, q) {
          var i :| 0 <= i < |init| && p in init[i].FindKnn(q);
          assert ts[i] == init[i];
        }
        if exists i :: 0 <= i < |ts| && p in ts[i].FindKnn(q) {
          var i :| 0 <= i < |ts| && p in ts[i].FindKnn(q);
          if i < |ts| - 1 {
            assert init[i] == ts[i];
          }
        }
      }
    }
  }

  /** One tree more in the union of the leaves. */
  lemma CandidatesStep(ts: seq<RpTree>, q: Point, i: int)
    requires Queryable(ts, q) && 0 <= i < |ts|
    ensures Queryable(ts[..i + 1], q)
    ensures Candidates(ts[..i + 1], q) == Candidates(ts[..i], q) + ts[i].FindKnn(q)
  {
    assert ts[..i + 1][..i] == ts[..i];
  }

  /** The candidates of a prefix of the trees are candidates of all of them. */
  lemma PrefixWithinCandidates(ts: seq<RpTree>, q: Point, i: int)
    requires Queryable(ts, q) && 0 <= i <= |ts|
    ensures Queryable(ts[..i], q) && Candidates(ts[..i], q) <= Candidates(ts, q)
  {
    CandidatesAreLeafPoints(ts, q);
    CandidatesAreLeafPoints(ts[..i], q);
    forall p | p in Candidates(ts[..i], q)
      ensures p in Candidates(ts, q)
    {
      var j :| 0 <= j < i && p in ts[..i][j].FindKnn(q);
      assert ts[..i][j] == ts[j];
    }
  }

  /** The leaf one tree descends to is among the candidates. */
  lemma LeafWithinCandidates(ts: seq<RpTree>, q: Point, i: int)
    requires Queryable(ts, q) && 0 <= i < |ts|
    ensures ts[i].FindKnn(q) <= Candidates(ts, q)
  {
    CandidatesAreLeafPoints(ts, q);
  }

  /** A mix of dimensions found partway through the union is in the union. */
  lemma MixedUnionIsMixed(ts: seq<RpTree>, q: Point, i: int)
    requires Queryable(ts, q) && 0 <= i < |ts|
    requires !SameDimension(Candidates(ts[..i], q) + ts[i].FindKnn(q))
    ensures !SameDimension(Candidates(ts, q))
  {
    LeafWithinCandidates(ts, q, i);
    PrefixWithinCandidates(ts, q, i);
    var x, y :| x in Candidates(ts[..i], q) + ts[i].FindKnn(q) && y in Candidates(ts[..i], q) + ts[i].FindKnn(q) && Dimension(x) != Dimension(y);
    assert x in Candidates(ts, q) && y in Candidates(ts, q);
  }

  /** On a built forest every query of the forest's dimension can descend
      every tree, and the candidates are points of U, all of q's dimension:
      KnnForPoint then fails for no query. */
  lemma BuiltForestQueries(ts: seq<RpTree>, U: set<Point>, d: nat, q: Point)
    requires forall i :: 0 <= i < |ts| ==> ts[i].start.Some? && ts[i].start.value.points == U && WellBuilt(ts[i].start.value, ts[i].ns, d)
    requires 1 <= d && Dimension(q) == d
    ensures Queryable(ts, q)
    ensures Candidates(ts, q) <= U
    ensures SameDimension(Candidates(ts, q))
    ensures forall c :: c in Candidates(ts, q) ==> Dimension(c) == Dimension(q)
  {
    forall i | 0 <= i < |ts|
      ensures CanDescend(ts[i].start.value, q) && ts[i].FindKnn(q) <= U
    {
      QueryIsLeafOfTree(ts[i], d, q);
    }
    CandidatesAreLeafPoints(ts, q);
    forall c | c in Candidates(ts, q)
      ensures c in U && Dimension(c) == d
    {
      var i :| 0 <= i < |ts| && c in ts[i].FindKnn(q);
      QueryIsLeafOfTree(ts[i], d, q);
    }
  }

  /** All points of S have one dimension (std::set<Point> throws otherwise). */
  predicate SameDimension(S: set<Point>) {
    forall x, y :: x in S && y in S ==> Dimension(x) == Dimension(y)
  }

  /** The sort key of the query's comparator: Distance to q, compared through
      its square (the square root is monotone). */
  function DistanceKey(q: Point): Point -> int {
    p => SquaredDistance(p, q)
  }

  /** The candidates in set order, sorted by distance to q. */
  ghost function Ranked(C: set<Point>, q: Point): (r: seq<Point>)
    ensures |r| == |C|
  {
    OrderedFacts(C);
    SortBy(Ordered(C), DistanceKey(q))
  }

  /** A sequence with the multiset of a set repeats nothing. */
  lemma DistinctLikeSet(xs: seq<Point>, S: set<Point>)
    requires multiset(xs) == multiset(S)
    ensures forall i, j :: 0 <= i < j < |xs| ==> xs[i] != xs[j]
  {
    forall i, j | 0 <= i < j < |xs|
      ensures xs[i] != xs[j]
    {
      RepeatCountsTwice(xs, i, j);
    }
  }

  lemma RepeatCountsTwice(xs: seq<Point>, i: int, j: int)
    requires 0 <= i < j < |xs|
    ensures xs[i] == xs[j] ==> multiset(xs)[xs[i]] >= 2
  {
    assert xs == xs[..j] + xs[j..];
    assert xs[i] == xs[..j][i] && xs[j] == xs[j..][0];
    assert multiset(xs)[xs[i]] == multiset(xs[..j])[xs[i]] + multiset(xs[j..])[xs[i]];
  }

  /** `res.size() > k` compares with k converted to size_t, so a negative k
      never truncates. */
  function Keep(size: nat, k: int): (r: nat)
    ensures r <= size
    ensures 0 <= k ==> r <= k && (r < k ==> r == size)
    ensures k < 0 ==> r == size
  {
    if 0 <= k < size then k else size
  }

  /** The ranking lists every candidate once, nearest first. */
  lemma RankedFacts(C: set<Point>, q: Point)
    ensures forall p :: p in Ranked(C, q) <==> p in C
    ensures forall i, j :: 0 <= i < j < |Ranked(C, q)| ==> Ranked(C, q)[i] != Ranked(C, q)[j]
    ensures SortedBy(Ranked(C, q), DistanceKey(q))
  {
    var xs := Ranked(C, q);
    OrderedIsPermutation(C);
    assert multiset(xs) == multiset(C);
    OrderedFacts(C);
    forall p
      ensures p in xs <==> p in C
    {
      assert p in xs <==> p in multiset(xs);
    }
    DistinctLikeSet(xs, C);
  }

  /** The ranking in terms of the distance itself: nearest first. */
  lemma RankedByDistance(C: set<Point>, q: Point)
    ensures forall i, j :: 0 <= i < j < |Ranked(C, q)| ==> SquaredDistance(Ranked(C, q)[i], q) <= SquaredDistance(Ranked(C, q)[j], q)
  {
    var xs := Ranked(C, q);
    RankedFacts(C, q);
    forall i, j | 0 <= i < j < |xs|
      ensures SquaredDistance(xs[i], q) <= SquaredDistance(xs[j], q)
    {
      assert DistanceKey(q)(xs[i]) <= DistanceKey(q)(xs[j]);
    }
  }

  /** The first m of the ranking are the m nearest candidates: no candidate
      left out is nearer than one kept. */
  lemma NearestFirst(C: set<Point>, q: Point, m: nat)
    requires m <= |C|
    ensures forall c, i :: c in C && c !in Ranked(C, q)[..m] && 0 <= i < m ==> SquaredDistance(Ranked(C, q)[i], q) <= SquaredDistance(c, q)
  {
    var xs := Ranked(C, q);
    RankedFacts(C, q);
    RankedByDistance(C, q);
    forall c, i | c in C && c !in xs[..m] && 0 <= i < m
      ensures SquaredDistance(xs[i], q) <= SquaredDistance(c, q)
    {
      var j :| 0 <= j < |xs| && xs[j] == c;
      assert j >= m by {
        assert forall t :: 0 <= t < m ==> xs[..m][t] == xs[t];
      }
    }
  }

  // ---------------------------------------------------------------------------
  // Binary layout of a forest

  /** One tree more in the layout of the trees. */
  lemma EncodeTreesStep(trees: seq<(int, RpTreeNode)>, i: int)
    requires 0 <= i < |trees|
    ensures EncodeTrees(trees[..i + 1]) == EncodeTrees(trees[..i]) + EncodeTree(trees[i].0, trees[i].1)
  {
    assert trees[..i + 1][..i] == trees[..i];
  }

  /** The writes of WriteForestTo, grouped as the forest layout. */
  lemma ForestWritten(before: seq<Token>, U: set<Point>, howMany: int, trees: seq<(int, RpTreeNode)>)
    ensures before + EncodePointSet(U) + [Num(howMany)] + EncodeTrees(trees)
      == before + EncodeForest(U, howMany, trees)
  {
    var a, b, c, e := [Num(|U|)], EncodePoints(Ordered(U)), [Num(howMany)], EncodeTrees(trees);
    Assoc(before, a, b);
    Assoc(before, a + b, c);
    Assoc(before, a + b + c, e);
  }

  /** The first loop of WriteForestTo: |U|, then U's points in set order. */
  ghost function EncodePointSet(U: set<Point>): seq<Token> {
    [Num(|U|)] + EncodePoints(Ordered(U))
  }

  method WritePointSet(U: set<Point>, file: OutStream)
    modifies file
    ensures file.written == old(file.written) + EncodePointSet(U)
  {
    file.Write(Num(|U|));
    var xs := Elements(U);
    WritePoints(xs, file);
  }

  /** The layout of the first n trees, one after the other. */
  ghost function EncodeTrees(trees: seq<(int, RpTreeNode)>): seq<Token>
    decreases |trees|
  {
    if trees == [] then []
    else EncodeTrees(trees[..|trees| - 1]) + EncodeTree(trees[|trees| - 1].0, trees[|trees| - 1].1)
  }

  /** WriteForestTo: |U|, U's points in set order, how_much, then the first
      how_much trees. */
  ghost function EncodeForest(U: set<Point>, howMany: int, trees: seq<(int, RpTreeNode)>): seq<Token> {
    [Num(|U|)] + EncodePoints(Ordered(U)) + [Num(howMany)] + EncodeTrees(trees)
  }

  /** The reading loop over n more trees, appended to acc. */
  function DecodeTrees(s: seq<Token>, n: int, acc: seq<(int, RpTreeNode)>): (r: Result<(seq<(int, RpTreeNode)>, seq<Token>)>)
    ensures r.Success? ==> |r.value.1| <= |s|
    decreases if n > 0 then n else 0
  {
    if n <= 0 then Success((acc, s))
    else
      var tree :- DecodeTree(s);
      DecodeTrees(tree.1, n - 1, acc + [tree.0])
  }

  /** ReadForestFrom: the points of U, inserted one by one, how_much, and
      that many trees. */
  function DecodeForest(s: seq<Token>): (r: Result<((set<Point>, int, seq<(int, RpTreeNode)>), seq<Token>)>) {
    var size :- TakeNum(s);
    var points :- DecodePointSet(size.1, size.0, {});
    var count :- TakeNum(points.1);
    var trees :- DecodeTrees(count.1, count.0, []);
    Success(((points.0, count.0, trees.0), trees.1))
  }

  /** Reading back the layout of the trees yields the same trees. */
  lemma TreesRoundTrip(trees: seq<(int, RpTreeNode)>, d: nat, rest: seq<Token>)
    requires forall i :: 0 <= i < |trees| ==> NodesUniform(trees[i].1, d)
    ensures DecodeTrees(EncodeTrees(trees) + rest, |trees|, []) == Success((trees, rest))
  {
    SuffixRoundTrip(trees, d, rest, 0, []);
    assert trees[0..] == trees;
    assert [] + trees == trees;
  }

  /** Reading back the layout of the trees from the j-th on, after acc. */
  lemma {:induction false} SuffixRoundTrip(trees: seq<(int, RpTreeNode)>, d: nat, rest: seq<Token>, j: int, acc: seq<(int, RpTreeNode)>)
    requires 0 <= j <= |trees|
    requires forall i :: 0 <= i < |trees| ==> NodesUniform(trees[i].1, d)
    ensures DecodeTrees(EncodeTrees(trees[j..]) + rest, |trees| - j, acc) == Success((acc + trees[j..], rest))
    decreases |trees| - j
  {
    if j == |trees| {
      EmptySuffix(trees, rest, acc);
    } else {
      SuffixStep(trees, d, rest, j, acc);
      SuffixRoundTrip(trees, d, rest, j + 1, acc + [trees[j]]);
      SuffixGrows(acc, trees, j);
    }
  }

  /** Reading the j-th tree off the layout of the trees from the j-th on. */
  lemma SuffixStep(trees: seq<(int, RpTreeNode)>, d: nat, rest: seq<Token>, j: int, acc: seq<(int, RpTreeNode)>)
    requires 0 <= j < |trees| && NodesUniform(trees[j].1, d)
    ensures DecodeTrees(EncodeTrees(trees[j..]) + rest, |trees| - j, acc)
         == DecodeTrees(EncodeTrees(trees[j + 1..]) + rest, |trees| - j - 1, acc + [trees[j]])
  {
    var next := EncodeTrees(trees[j + 1..]) + rest;
    SuffixLayout(trees, j, rest);
    TreeRoundTrip(trees[j].0, trees[j].1, d, next);
    DecodeTreesCons(EncodeTrees(trees[j..]) + rest, trees[j], next, |trees| - j, acc);
  }

  lemma EmptySuffix(trees: seq<(int, RpTreeNode)>, rest: seq<Token>, acc: seq<(int, RpTreeNode)>)
    ensures EncodeTrees(trees[|trees|..]) + rest == rest && acc + trees[|trees|..] == acc
  {
    assert trees[|trees|..] == [];
  }

  lemma SuffixGrows<T>(acc: seq<T>, xs: seq<T>, j: int)
    requires 0 <= j < |xs|
    ensures acc + [xs[j]] + xs[j + 1..] == acc + xs[j..]
  {
    assert xs[j..] == [xs[j]] + xs[j + 1..];
  }

  /** The layout of the trees from the j-th on is the j-th tree's, then the
      layout of the trees after it. */
  lemma SuffixLayout(trees: seq<(int, RpTreeNode)>, j: int, rest: seq<Token>)
    requires 0 <= j < |trees|
    ensures EncodeTrees(trees[j..]) + rest == EncodeTree(trees[j].0, trees[j].1) + (EncodeTrees(trees[j + 1..]) + rest)
  {
    TreesFromFront(trees[j..]);
    assert trees[j..][1..] == trees[j + 1..];
    Assoc(EncodeTree(trees[j].0, trees[j].1), EncodeTrees(trees[j + 1..]), rest);
  }

  /** The reading loop over the trees stops at the first tree it cannot read. */
  lemma DecodeTreesFails(s: seq<Token>, n: int, acc: seq<(int, RpTreeNode)>)
    requires n > 0 && DecodeTree(s).Failure?
    ensures DecodeTrees(s, n, acc) == Failure(DecodeTree(s).error)
  {
  }

  /** One step of the reading loop over the trees. */
  lemma DecodeTreesCons(s: seq<Token>, t: (int, RpTreeNode), tail: seq<Token>, n: int, acc: seq<(int, RpTreeNode)>)
    requires n > 0 && DecodeTree(s) == Success((t, tail))
    ensures DecodeTrees(s, n, acc) == DecodeTrees(tail, n - 1, acc + [t])
  {
  }

  /** EncodeTrees read from the front. */
  lemma {:induction false} TreesFromFront(trees: seq<(int, RpTreeNode)>)
    requires trees != []
    ensures EncodeTrees(trees) == EncodeTree(trees[0].0, trees[0].1) + EncodeTrees(trees[1..])
    decreases |trees|
  {
    if |trees| > 1 {
      var init := trees[..|trees| - 1];
      TreesFromFront(init);
      assert init[1..] == trees[1..][..|trees[1..]| - 1];
      assert init[0] == trees[0];
    } else {
      assert trees[..0] == [];
    }
  }

  /** Reading back what WriteForestTo wrote yields the same forest. */
  lemma ForestRoundTrip(U: set<Point>, howMany: int, trees: seq<(int, RpTreeNode)>, d: nat, rest: seq<Token>)
    requires UniformDimension(U, d) && |trees| == (if howMany > 0 then howMany else 0)
    requires forall i :: 0 <= i < |trees| ==> NodesUniform(trees[i].1, d)
    ensures DecodeForest(EncodeForest(U, howMany, trees) + rest) == Success(((U, howMany, trees), rest))
  {
    var xs := Ordered(U);
    var afterPoints := [Num(howMany)] + (EncodeTrees(trees) + rest);
    ForestLayout(U, howMany, trees, rest);
    UniformPointsRoundTrip(U, d, afterPoints);
    CountedTreesRoundTrip(trees, howMany, d, rest);
    assert afterPoints[1..] == EncodeTrees(trees) + rest;
  }

  /** The forest layout and what follows, grouped from the right. */
  lemma ForestLayout(U: set<Point>, howMany: int, trees: seq<(int, RpTreeNode)>, rest: seq<Token>)
    ensures EncodeForest(U, howMany, trees) + rest
      == [Num(|U|)] + (EncodePoints(Ordered(U)) + ([Num(howMany)] + (EncodeTrees(trees) + rest)))
  {
    var a, b, c, e := [Num(|U|)], EncodePoints(Ordered(U)), [Num(howMany)], EncodeTrees(trees);
    Assoc(a + b + c, e, rest);
    Assoc(a + b, c, e + rest);
    Assoc(a, b, c + (e + rest));
  }

  /** The points of U, in set order, read back into U. */
  lemma UniformPointsRoundTrip(U: set<Point>, d: nat, rest: seq<Token>)
    requires UniformDimension(U, d)
    ensures DecodePointSet(EncodePoints(Ordered(U)) + rest, |U|, {}) == Success((U, rest))
  {
    var xs := Ordered(U);
    OrderedFacts(U);
    PointSetRoundTrip(xs, {}, d, rest);
    assert {} + Members(xs) == U;
  }

  /** The trees read back with the count that was written in front of them. */
  lemma CountedTreesRoundTrip(trees: seq<(int, RpTreeNode)>, howMany: int, d: nat, rest: seq<Token>)
    requires |trees| == (if howMany > 0 then howMany else 0)
    requires forall i :: 0 <= i < |trees| ==> NodesUniform(trees[i].1, d)
    ensures DecodeTrees(EncodeTrees(trees) + rest, howMany, []) == Success((trees, rest))
  {
    if howMany <= 0 {
      assert EncodeTrees(trees) + rest == rest;
    } else {
      TreesRoundTrip(trees, d, rest);
    }
  }

  /** Two points of different dimension in one set. */
  lemma MixedDimensions(S: set<Point>, x: Point, y: Point)
    requires x in S && y in S && Dimension(x) != Dimension(y)
    ensures !SameDimension(S)
  {
  }

  /** Inserting one more point of the common dimension keeps it common. */
  lemma InsertedStep(acc: set<Point>, xs: seq<Point>, j: int, all: set<Point>)
    requires 0 <= j < |xs| && all == acc + Members(xs[..j]) && SameDimension(all)
    requires forall x :: x in all ==> Dimension(x) == Dimension(xs[j])
    ensures all + {xs[j]} == acc + Members(xs[..j + 1]) && SameDimension(all + {xs[j]})
  {
    assert xs[..j + 1] == xs[..j] + [xs[j]];
  }

  /** The comparator of KnnForPoint throws: std::sort compares two
      candidates, and some candidate's dimension differs from q's. */
  predicate ComparatorFails(C: set<Point>, q: Point) {
    |C| >= 2 && exists c :: c in C && Dimension(c) != Dimension(q)
  }

  /** The rest of KnnForPoint: all_knn copied out in set order, sorted by
      distance to q, and cut to k points when 0 <= k < its size. */
  method RankCandidates(all: set<Point>, q: Point, k: int) returns (r: Result<seq<Point>>)
    ensures r.Failure? <==> ComparatorFails(all, q)
    ensures r.Failure? ==> r.error == DimensionMismatch
    ensures r.Success? ==> r.value == Ranked(all, q)[..Keep(|all|, k)]
  {
    if |all| >= 2 && exists c :: c in all && Dimension(c) != Dimension(q) {
      return Failure(DimensionMismatch);
    }
    var res := Elements(all);
    res := SortBy(res, DistanceKey(q));
    assert res == Ranked(all, q);
    if 0 <= k < |res| {
      res := res[..k];
    }
    return Success(res);
  }

  /** Inserts the points of bag into acc in set order, as the inner loop of
      KnnForPoint does; std::set refuses a point whose dimension differs from
      one already present. */
  method InsertAll(acc: set<Point>, bag: set<Point>) returns (r: Result<set<Point>>)
    requires SameDimension(acc)
    ensures r.Failure? <==> !SameDimension(acc + bag)
    ensures r.Failure? ==> r.error == DimensionMismatch
    ensures r.Success? ==> r.value == acc + bag
  {
    var xs := Elements(bag);
    OrderedFacts(bag);
    var all := acc;
    for j := 0 to |xs|
      invariant all == acc + Members(xs[..j]) && SameDimension(all)
    {
      var inserted := InsertPoint(all, xs[j]);
      if inserted.Failure? {
        var x :| x in all && Dimension(x) != Dimension(xs[j]);
        MixedDimensions(acc + bag, x, xs[j]);
        return Failure(DimensionMismatch);
      }
      InsertedStep(acc, xs, j, all);
      all := inserted.value;
    }
    assert xs[..|xs|] == xs;
    return Success(all);
  }

  /** The second loop of WriteForestTo: the first n trees, whose leaf sizes
      and roots are listed in roots. */
  method WriteTrees(ts: seq<RpTree>, n: int, ghost roots: seq<(int, RpTreeNode)>, file: OutStream)
    requires n <= |ts| && |roots| == (if n > 0 then n else 0)
    requires forall i :: 0 <= i < |roots| ==> ts[i].start.Some? && roots[i] == (ts[i].ns, ts[i].start.value)
    modifies file
    ensures file.written == old(file.written) + EncodeTrees(roots)
  {
    var count := if n > 0 then n else 0;
    for i := 0 to count
      invariant file.written == old(file.written) + EncodeTrees(roots[..i])
    {
      ts[i].WriteTreeTo(file);
      EncodeTreesStep(roots, i);
    }
    assert roots[..count] == roots;
  }

  /** The second loop of ReadForestFrom: n trees, each read into a fresh
      default tree and pushed as a copy. */
  method ReadTrees(file: InStream, n: int) returns (r: Result<seq<RpTree>>)
    modifies file
    ensures match DecodeTrees(old(file.rest), n, [])
      case Success(v) => r.Success? && |r.value| == |v.0| && file.rest == v.1
        && (forall i :: 0 <= i < |r.value| ==> r.value[i].ns == v.0[i].0 && r.value[i].start == Some(v.0[i].1))
      case Failure(e) => r == Failure(e)
  {
    var ts: seq<RpTree> := [];
    ghost var trees: seq<(int, RpTreeNode)> := [];
    ghost var start := file.rest;
    var i := 0;
    while i < n
      invariant 0 <= i <= if n > 0 then n else 0
      invariant |ts| == |trees| == i
      invariant forall j :: 0 <= j < i ==> ts[j].ns == trees[j].0 && ts[j].start == Some(trees[j].1)
      invariant ReadSoFar(start, n, file.rest, i, trees)
    {
      ghost var here := file.rest;
      var tree := new RpTree();
      var ok := tree.ReadTreeFrom(file);
      if ok.Failure? {
        FailedRead(start, n, here, i, trees);
        return Failure(ok.error);
      }
      ReadOneMore(start, n, here, i, trees, (tree.ns, tree.start.value), file.rest);
      var copy := new RpTree.Copy(tree);
      ts := ts + [copy];
      trees := trees + [(tree.ns, tree.start.value)];
      i := i + 1;
    }
    FinishedRead(start, n, file.rest, i, trees);
    return Success(ts);
  }

  /** Reading n trees from start is reading the i trees in trees and then
      n - i more from here. */
  ghost predicate ReadSoFar(start: seq<Token>, n: int, here: seq<Token>, i: int, trees: seq<(int, RpTreeNode)>) {
    DecodeTrees(start, n, []) == DecodeTrees(here, n - i, trees)
  }

  lemma ReadOneMore(start: seq<Token>, n: int, here: seq<Token>, i: int, trees: seq<(int, RpTreeNode)>, t: (int, RpTreeNode), next: seq<Token>)
    requires ReadSoFar(start, n, here, i, trees) && i < n && DecodeTree(here) == Success((t, next))
    ensures ReadSoFar(start, n, next, i + 1, trees + [t])
  {
    DecodeTreesCons(here, t, next, n - i, trees);
  }

  lemma FailedRead(start: seq<Token>, n: int, here: seq<Token>, i: int, trees: seq<(int, RpTreeNode)>)
    requires ReadSoFar(start, n, here, i, trees) && i < n && DecodeTree(here).Failure?
    ensures DecodeTrees(start, n, []) == Failure(DecodeTree(here).error)
  {
    DecodeTreesFails(here, n - i, trees);
  }

  lemma FinishedRead(start: seq<Token>, n: int, here: seq<Token>, i: int, trees: seq<(int, RpTreeNode)>)
    requires ReadSoFar(start, n, here, i, trees) && i >= n
    ensures DecodeTrees(start, n, []) == Success((trees, here))
  {
  }

  // ---------------------------------------------------------------------------
  // The forest

  class RpForest {
    var U: set<Point>
    var howMany: int
    var forest: seq<RpTree>

    /** Every tree is built from U with the forest's leaf size. */
    ghost predicate Built(d: nat)
      reads this, forest
    {
      && UniformDimension(U, d)
      && forall i :: 0 <= i < |forest| ==>
           forest[i].ns == LeafSize(|U|) && BuiltFrom(forest[i].ns, forest[i].start, U, d)
    }

    /** The default forest: no points, one tree promised, none built. */
    constructor ()
      ensures U == {} && howMany == 1 && forest == []
    {
      U := {};
      howMany := 1;
      forest := [];
    }

    /** RpForest(train, how_much): how_much trees, built one after another. */
    static method Sequential(train: set<Point>, howMany: int, ghost d: nat, ent: Entropy) returns (r: Result<RpForest>, rest: Entropy)
      requires UniformDimension(train, d)
      ensures Drawn(rest, ent)
      ensures r.Failure? ==> r.error == RandomExhausted
      ensures r.Success? ==> fresh(r.value) && r.value.U == train && r.value.howMany == howMany
      ensures r.Success? ==> |r.value.forest| == (if howMany > 0 then howMany else 0) && r.value.Built(d)
    {
      var f := new RpForest();
      f.U := train;
      f.howMany := howMany;
      rest := ent;
      var ok;
      ok, rest := f.MakeTrees(train, howMany, d, rest);
      if ok.Failure? {
        return Failure(ok.error), rest;
      }
      return Success(f), rest;
    }

    /** MakeTrees(this, train, trees_count): appends trees_count trees built
        from train with the leaf size of train. */
    method MakeTrees(train: set<Point>, count: int, ghost d: nat, ent: Entropy) returns (r: Result<()>, rest: Entropy)
      requires U == train && Built(d)
      modifies this
      ensures Drawn(rest, ent)
      ensures r.Failure? ==> r.error == RandomExhausted
      ensures U == old(U) && howMany == old(howMany)
      ensures r.Success? ==> |forest| == |old(forest)| + (if count > 0 then count else 0)
      ensures |old(forest)| <= |forest| && forest[..|old(forest)|] == old(forest)
      ensures Built(d)
    {
      var leafSize := LeafSize(|train|);
      rest := ent;
      var i := 0;
      while i < count
        invariant Drawn(rest, ent) && U == old(U) && howMany == old(howMany)
        invariant |forest| == |old(forest)| + i && forest[..|old(forest)|] == old(forest)
        invariant Built(d)
        invariant 0 <= i <= if count > 0 then count else 0
      {
        var tree, rest1 := RpTree.Build(train, leafSize, d, rest);
        DrawnTransitive(rest1, rest, ent);
        rest := rest1;
        if tree.Failure? {
          return Failure(tree.error), rest;
        }
        forest := forest + [tree.value];
        i := i + 1;
      }
      return Success(()), rest;
    }

    /** RpForest(train, how_much, thread_count) as written: throws for fewer
        than one thread; a negative how_much passes the thread loop and then
        makes forest.reserve throw std::length_error, as its conversion to
        size_t exceeds max_size(); each of the settled-on threads builds
        how_much / threads trees, which can be fewer trees in all than the
        how_much it records. */
    static method Threaded(train: set<Point>, howMany: int, threadCount: int, ghost d: nat, ent: Entropy) returns (r: Result<RpForest>, rest: Entropy)
      requires UniformDimension(train, d)
      requires threadCount > 0 ==> howMany != 0
      ensures Drawn(rest, ent)
      ensures threadCount <= 0 ==> r == Failure(InvalidParameter)
      ensures threadCount > 0 && howMany < 0 ==> r == Failure(LengthError)
      ensures r.Failure? ==> r.error == (if threadCount <= 0 then InvalidParameter else if howMany < 0 then LengthError else RandomExhausted)
      ensures r.Success? ==> fresh(r.value) && r.value.U == train && r.value.howMany == howMany && r.value.Built(d)
      ensures r.Success? ==> var t := ThreadsUsed(howMany, threadCount);
        |r.value.forest| == t * (if CDiv(howMany, t) > 0 then CDiv(howMany, t) else 0)
    {
      rest := ent;
      if threadCount <= 0 {
        return Failure(InvalidParameter), rest;
      }
      var threads, perThread := ThreadPlan(howMany, threadCount);
      if howMany < 0 {
        return Failure(LengthError), rest;
      }
      var f := new RpForest();
      f.U := train;
      f.howMany := howMany;
      for i := 0 to threads
        invariant Drawn(rest, ent) && f.U == train && f.howMany == howMany && f.Built(d)
        invariant |f.forest| == i * perThread
      {
        var ok, rest1 := f.MakeTrees(train, perThread, d, rest);
        DrawnTransitive(rest1, rest, ent);
        rest := rest1;
        if ok.Failure? {
          return Failure(ok.error), rest;
        }
        MulStep(i, perThread);
      }
      return Success(f), rest;
    }

    /** The threaded constructor with the remainder shared out: the first
        how_much % threads tasks build one tree more, so the forest holds
        exactly the how_much trees it records. The failures are those of the
        constructor as written. */
    static method ThreadedBalanced(train: set<Point>, howMany: int, threadCount: int, ghost d: nat, ent: Entropy) returns (r: Result<RpForest>, rest: Entropy)
      requires UniformDimension(train, d)
      requires threadCount > 0 ==> howMany != 0
      ensures Drawn(rest, ent)
      ensures threadCount <= 0 ==> r == Failure(InvalidParameter)
      ensures threadCount > 0 && howMany < 0 ==> r == Failure(LengthError)
      ensures r.Failure? ==> r.error == (if threadCount <= 0 then InvalidParameter else if howMany < 0 then LengthError else RandomExhausted)
      ensures r.Success? ==> fresh(r.value) && r.value.U == train && r.value.howMany == howMany && r.value.Built(d)
      ensures r.Success? ==> |r.value.forest| == (if howMany > 0 then howMany else 0)
    {
      rest := ent;
      if threadCount <= 0 {
        return Failure(InvalidParameter), rest;
      }
      var threads, perThread := ThreadPlan(howMany, threadCount);
      if howMany < 0 {
        return Failure(LengthError), rest;
      }
      var f := new RpForest();
      f.U := train;
      f.howMany := howMany;
      var total: nat := howMany;
      for i := 0 to threads
        invariant Drawn(rest, ent) && f.U == train && f.howMany == howMany && f.Built(d)
        invariant |f.forest| == SharesUpTo(total, threads, i)
      {
        var ok, rest1 := f.MakeTrees(train, Share(total, threads, i), d, rest);
        DrawnTransitive(rest1, rest, ent);
        rest := rest1;
        if ok.Failure? {
          return Failure(ok.error), rest;
        }
      }
      AllSharesAddUp(total, threads);
      return Success(f), rest;
    }

    /** KnnForPoint(q, k): the union of the leaves the trees descend to,
        sorted by distance to q and cut to k points when 0 <= k < its size.
        Inserting a point of another dimension into the union throws, and
        so does the comparator when a candidate's dimension differs from q's
        (std::sort compares only when there are two or more candidates). */
    method KnnForPoint(q: Point, k: int) returns (r: Result<seq<Point>>)
      requires Queryable(forest, q)
      ensures var C := Candidates(forest, q);
        r.Failure? <==> !SameDimension(C) || ComparatorFails(C, q)
      ensures r.Failure? ==> r.error == DimensionMismatch
      ensures r.Success? ==> var C := Candidates(forest, q);
        r.value == Ranked(C, q)[..Keep(|C|, k)]
    {
      var all := CollectCandidates(q);
      if all.Failure? {
        return Failure(all.error);
      }
      r := RankCandidates(all.value, q, k);
    }

    /** The first loop of KnnForPoint: all_knn, the union of the leaves, built
        by inserting their points one by one. */
    method CollectCandidates(q: Point) returns (r: Result<set<Point>>)
      requires Queryable(forest, q)
      ensures r.Failure? <==> !SameDimension(Candidates(forest, q))
      ensures r.Failure? ==> r.error == DimensionMismatch
      ensures r.Success? ==> r.value == Candidates(forest, q)
    {
      var all: set<Point> := {};
      for i := 0 to |forest|
        invariant Queryable(forest[..i], q) && all == Candidates(forest[..i], q) && SameDimension(all)
      {
        CandidatesStep(forest, q, i);
        var bag := forest[i].FindKnn(q);
        var inserted := InsertAll(all, bag);
        if inserted.Failure? {
          MixedUnionIsMixed(forest, q, i);
          return inserted;
        }
        all := inserted.value;
      }
      assert forest[..|forest|] == forest;
      return Success(all);
    }

    /** WriteForestTo; forest[i] must exist for every i below how_much. */
    method WriteForestTo(file: OutStream)
      requires howMany <= |forest| && forall i :: 0 <= i < howMany ==> forest[i].start.Some?
      modifies file
      ensures file.written == old(file.written) + EncodeForest(U, howMany, Roots(forest, howMany))
    {
      ghost var roots := Roots(forest, howMany);
      RootsAt(forest, howMany);
      WritePointSet(U, file);
      file.Write(Num(howMany));
      WriteTrees(forest, howMany, roots, file);
      ForestWritten(old(file.written), U, howMany, roots);
    }

    /** ReadForestFrom: clears U and the forest, reads the points and
        how_much, then reads each tree into a fresh tree and pushes a copy. */
    method ReadForestFrom(file: InStream) returns (r: Result<()>)
      modifies this, file
      ensures match DecodeForest(old(file.rest))
        case Success(v) => r == Success(()) && U == v.0.0 && howMany == v.0.1
          && |forest| == |v.0.2| && file.rest == v.1
          && (forall i :: 0 <= i < |forest| ==> forest[i].ns == v.0.2[i].0 && forest[i].start == Some(v.0.2[i].1))
        case Failure(e) => r == Failure(e)
    {
      U := {};
      forest := [];
      var size := file.ReadNum();
      if size.Failure? {
        return Failure(size.error);
      }
      var points := ReadPointSet(file, size.value);
      if points.Failure? {
        return Failure(points.error);
      }
      U := points.value;
      var count := file.ReadNum();
      if count.Failure? {
        return Failure(count.error);
      }
      howMany := count.value;
      var trees := ReadTrees(file, howMany);
      if trees.Failure? {
        return Failure(trees.error);
      }
      forest := trees.value;
      return Success(());
    }
  }

  /** The leaf size and root of each of the first n trees. */
  ghost function Roots(ts: seq<RpTree>, n: int): (r: seq<(int, RpTreeNode)>)
    reads ts
    requires n <= |ts| && forall i :: 0 <= i < n ==> ts[i].start.Some?
    ensures |r| == (if n > 0 then n else 0)
    decreases n
  {
    if n <= 0 then [] else Roots(ts, n - 1) + [(ts[n - 1].ns, ts[n - 1].start.value)]
  }

  lemma {:induction false} RootsAt(ts: seq<RpTree>, n: int)
    requires n <= |ts| && forall j :: 0 <= j < n ==> ts[j].start.Some?
    ensures forall i :: 0 <= i < n ==> Roots(ts, n)[i] == (ts[i].ns, ts[i].start.value)
    decreases n
  {
    if n > 0 {
      RootsAt(ts, n - 1);
    }
  }
}
