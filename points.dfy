/** The point type of the random-projection forest (pointForRpTree.h), with
    NumericType fixed to int: constructors, coordinate access, the order
    std::set<Point> sorts by, equality, the squared distance and the binary
    encoding of one point. */
module Points {
  import opened Outcomes
  import opened Streams

  /** A point is its coordinate vector. */
  datatype Point = Point(coords: seq<int>)

  function Dimension(p: Point): nat {
    |p.coords|
  }

  function At(p: Point, pos: nat): int
    requires pos < Dimension(p)
  {
    p.coords[pos]
  }

  /** Point(vec): keeps the vector as the coordinates. */
  function FromVector(vec: seq<int>): (p: Point)
    ensures Dimension(p) == |vec|
    ensures forall i :: 0 <= i < |vec| ==> At(p, i) == vec[i]
  {
    Point(vec)
  }

  /** Point(int dimension): the origin of the given dimension, which must be positive. */
  function WithDimension(dimension: int): (r: Result<Point>)
    ensures r.Failure? <==> dimension <= 0
    ensures r.Failure? ==> r.error == InvalidParameter
    ensures r.Success? ==> Dimension(r.value) == dimension
    ensures r.Success? ==> forall i :: 0 <= i < dimension ==> At(r.value, i) == 0
  {
    if dimension <= 0 then Failure(InvalidParameter)
    else Success(Point(seq(dimension, _ => 0)))
  }

  // ---------------------------------------------------------------------------
  // Order and equality

  /** std::vector's operator<: lexicographic, a proper prefix being smaller. */
  predicate LexLess(a: seq<int>, b: seq<int>)
    decreases |a|
  {
    if |a| == 0 then |b| > 0
    else |b| > 0 && (a[0] < b[0] || (a[0] == b[0] && LexLess(a[1..], b[1..])))
  }

  lemma {:induction false} LexIrreflexive(a: seq<int>)
    ensures !LexLess(a, a)
    decreases |a|
  {
    if |a| > 0 {
      LexIrreflexive(a[1..]);
    }
  }

  lemma {:induction false} LexTransitive(a: seq<int>, b: seq<int>, c: seq<int>)
    requires LexLess(a, b) && LexLess(b, c)
    ensures LexLess(a, c)
    decreases |a|
  {
    if |a| > 0 && a[0] == b[0] && b[0] == c[0] {
      LexTransitive(a[1..], b[1..], c[1..]);
    }
  }

  lemma {:induction false} LexConnected(a: seq<int>, b: seq<int>)
    requires a != b
    ensures LexLess(a, b) || LexLess(b, a)
    decreases |a|
  {
    if |a| > 0 && |b| > 0 && a[0] == b[0] {
      assert a == [a[0]] + a[1..] && b == [b[0]] + b[1..];
      LexConnected(a[1..], b[1..]);
    }
  }

  lemma LexAsymmetric(a: seq<int>, b: seq<int>)
    requires LexLess(a, b)
    ensures !LexLess(b, a)
  {
    if LexLess(b, a) {
      LexTransitive(a, b, a);
      LexIrreflexive(a);
    }
  }

  /** operator<: throws on different dimensions, else compares the vectors. */
  function Less(p: Point, q: Point): (r: Result<bool>)
    ensures r.Failure? <==> Dimension(p) != Dimension(q)
    ensures r.Failure? ==> r.error == DimensionMismatch
  {
    if Dimension(q) != Dimension(p) then Failure(DimensionMismatch)
    else Success(LexLess(p.coords, q.coords))
  }

  /** operator==: throws on different dimensions, else compares coordinates. */
  function Equal(p: Point, q: Point): (r: Result<bool>)
    ensures r.Failure? <==> Dimension(p) != Dimension(q)
    ensures r.Failure? ==> r.error == DimensionMismatch
    ensures r.Success? ==> (r.value <==> forall i :: 0 <= i < Dimension(p) ==> p.coords[i] == q.coords[i])
  {
    if Dimension(q) != Dimension(p) then Failure(DimensionMismatch)
    else Success(p.coords == q.coords)
  }

  /** operator!=: the negation of operator==, throwing when it throws. */
  function NotEqual(p: Point, q: Point): (r: Result<bool>)
    ensures r.Failure? <==> Equal(p, q).Failure?
    ensures r.Failure? ==> r.error == DimensionMismatch
    ensures r.Success? ==> r.value == !Equal(p, q).value
  {
    match Equal(p, q)
    case Success(b) => Success(!b)
    case Failure(e) => Failure(e)
  }

  /** On points of one dimension, operator< is a strict total order whose
      incomparable pairs are exactly the equal ones. */
  lemma LessIsStrictTotalOrder(p: Point, q: Point, s: Point)
    requires Dimension(p) == Dimension(q) == Dimension(s)
    ensures Less(p, q).Success? && Equal(p, q).Success?
    ensures !Less(p, p).value
    ensures Less(p, q).value ==> !Less(q, p).value
    ensures Less(p, q).value && Less(q, s).value ==> Less(p, s).value
    ensures !Equal(p, q).value <==> Less(p, q).value || Less(q, p).value
  {
    LexIrreflexive(p.coords);
    if LexLess(p.coords, q.coords) {
      LexAsymmetric(p.coords, q.coords);
      if LexLess(q.coords, s.coords) {
        LexTransitive(p.coords, q.coords, s.coords);
      }
    }
    if p.coords != q.coords {
      LexConnected(p.coords, q.coords);
    } else {
      LexIrreflexive(q.coords);
    }
  }

  // ---------------------------------------------------------------------------
  // Distance

  /** Sum of the squared differences over the first n axes. */
  function SumOfSquares(a: seq<int>, b: seq<int>, n: nat): int
    requires n <= |a| && n <= |b|
  {
    if n == 0 then 0
    else SumOfSquares(a, b, n - 1) + (a[n - 1] - b[n - 1]) * (a[n - 1] - b[n - 1])
  }

  /** The square of what Distance returns (taken over the common axes, which
      are all axes whenever Distance does not throw). */
  function SquaredDistance(p: Point, q: Point): int {
    SumOfSquares(p.coords, q.coords, if |p.coords| <= |q.coords| then |p.coords| else |q.coords|)
  }

  lemma {:induction false} SumOfSquaresFacts(a: seq<int>, b: seq<int>, n: nat)
    requires n <= |a| && n <= |b|
    ensures SumOfSquares(a, b, n) >= 0
    ensures SumOfSquares(a, b, n) == SumOfSquares(b, a, n)
    ensures SumOfSquares(a, b, n) == 0 <==> a[..n] == b[..n]
  {
    if n > 0 {
      SumOfSquaresFacts(a, b, n - 1);
      var d := a[n - 1] - b[n - 1];
      assert d * d >= 0;
      assert (b[n - 1] - a[n - 1]) * (b[n - 1] - a[n - 1]) == d * d;
      assert d * d == 0 <==> d == 0;
      assert a[..n] == a[..n - 1] + [a[n - 1]] && b[..n] == b[..n - 1] + [b[n - 1]];
      if a[..n] == b[..n] {
        assert a[..n - 1] == a[..n][..n - 1] && b[..n - 1] == b[..n][..n - 1];
        assert a[n - 1] == a[..n][n - 1] && b[n - 1] == b[..n][n - 1];
      }
    }
  }

  /** The squared distance is non-negative, symmetric, and zero exactly
      between identical points. */
  lemma SquaredDistanceIsMetricLike(p: Point, q: Point)
    ensures SquaredDistance(p, q) >= 0
    ensures SquaredDistance(p, q) == SquaredDistance(q, p)
    ensures Dimension(p) == Dimension(q) ==> (SquaredDistance(p, q) == 0 <==> p == q)
  {
    var n := if |p.coords| <= |q.coords| then |p.coords| else |q.coords|;
    SumOfSquaresFacts(p.coords, q.coords, n);
    assert p.coords[..|p.coords|] == p.coords && q.coords[..|q.coords|] == q.coords;
  }

  /** Distance: throws on different dimensions, otherwise accumulates the
      squared differences axis by axis (the model returns the square). */
  method Distance(first: Point, second: Point) returns (r: Result<int>)
    ensures Dimension(first) != Dimension(second) ==> r == Failure(DimensionMismatch)
    ensures Dimension(first) == Dimension(second) ==> r == Success(SquaredDistance(first, second))
  {
    if Dimension(second) != Dimension(first) {
      return Failure(DimensionMismatch);
    }
    var sums := 0;
    var i := 0;
    while i < Dimension(first)
      invariant 0 <= i <= Dimension(first)
      invariant sums == SumOfSquares(first.coords, second.coords, i)
    {
      sums := sums + (At(first, i) - At(second, i)) * (At(first, i) - At(second, i));
      i := i + 1;
    }
    return Success(sums);
  }

  // ---------------------------------------------------------------------------
  // Sets of points in std::set order

  /** All points of s have dimension d (what std::set<Point> enforces by
      throwing on the first comparison of points of different dimension). */
  predicate UniformDimension(s: set<Point>, d: nat) {
    forall p :: p in s ==> Dimension(p) == d
  }

  /** p comes first in s in the order std::set<Point> iterates. */
  predicate IsLeast(p: Point, s: set<Point>) {
    p in s && forall x :: x in s && x != p ==> LexLess(p.coords, x.coords)
  }

  lemma {:induction false} LeastExists(s: set<Point>)
    requires s != {}
    ensures exists p :: IsLeast(p, s)
    decreases |s|
  {
    var x :| x in s;
    if s == {x} {
      assert IsLeast(x, s);
    } else {
      LeastExists(s - {x});
      var m :| IsLeast(m, s - {x});
      if LexLess(m.coords, x.coords) {
        assert IsLeast(m, s);
      } else {
        LexConnected(m.coords, x.coords);
        forall y | y in s && y != x
          ensures LexLess(x.coords, y.coords)
        {
          if y != m {
            LexTransitive(x.coords, m.coords, y.coords);
          }
        }
        assert IsLeast(x, s);
      }
    }
  }

  lemma LeastUnique(p: Point, q: Point, s: set<Point>)
    requires IsLeast(p, s) && IsLeast(q, s)
    ensures p == q
  {
    if p != q {
      LexAsymmetric(p.coords, q.coords);
    }
  }

  /** The elements of s in the order std::set<Point> iterates them. */
  ghost function Ordered(s: set<Point>): seq<Point>
    decreases |s|
  {
    if s == {} then []
    else
      LeastExists(s);
      var p :| IsLeast(p, s);
      [p] + Ordered(s - {p})
  }

  /** The iteration visits every element of s exactly once. */
  lemma {:induction false} OrderedIsPermutation(s: set<Point>)
    ensures multiset(Ordered(s)) == multiset(s)
    decreases |s|
  {
    if s != {} {
      LeastExists(s);
      var q :| IsLeast(q, s) && Ordered(s) == [q] + Ordered(s - {q});
      OrderedIsPermutation(s - {q});
      assert s == {q} + (s - {q});
    }
  }

  lemma OrderedFacts(s: set<Point>)
    ensures |Ordered(s)| == |s|
    ensures forall p :: p in Ordered(s) <==> p in s
  {
    OrderedIsPermutation(s);
    assert |multiset(Ordered(s))| == |multiset(s)|;
    forall p
      ensures p in Ordered(s) <==> p in s
    {
      assert p in Ordered(s) <==> p in multiset(Ordered(s));
    }
  }

  /** Taking the least element off is one step of the iteration. */
  lemma OrderedStep(s: set<Point>, p: Point)
    requires IsLeast(p, s)
    ensures Ordered(s) == [p] + Ordered(s - {p})
  {
    assert s != {};
    LeastExists(s);
    var q :| IsLeast(q, s) && Ordered(s) == [q] + Ordered(s - {q});
    LeastUnique(p, q, s);
  }

  /** A range-for over a std::set<Point>: the elements begin() to end() visits. */
  method Elements(s: set<Point>) returns (xs: seq<Point>)
    ensures xs == Ordered(s)
  {
    xs := [];
    var remaining := s;
    while remaining != {}
      invariant xs + Ordered(remaining) == Ordered(s)
      decreases |remaining|
    {
      var p := TakeLeast(remaining);
      assert xs + ([p] + Ordered(remaining - {p})) == (xs + [p]) + Ordered(remaining - {p});
      xs := xs + [p];
      remaining := remaining - {p};
    }
  }

  /** Picks the element a std::set iteration visits next. */
  method TakeLeast(s: set<Point>) returns (p: Point)
    requires s != {}
    ensures p in s
    ensures Ordered(s) == [p] + Ordered(s - {p})
  {
    LeastExists(s);
    p :| IsLeast(p, s);
    OrderedStep(s, p);
  }

  // ---------------------------------------------------------------------------
  // Binary encoding of one point

  /** WritePointTo's layout: the dimension, then every coordinate. */
  function EncodePoint(p: Point): (r: seq<Token>)
    ensures |r| == Dimension(p) + 1
  {
    [Num(|p.coords|)] + NumTokens(p.coords)
  }

  /** ReadPointFrom's loop: n more coordinates are appended to `acc`;
      a non-positive n reads nothing. */
  function DecodeCoords(s: seq<Token>, n: int, acc: seq<int>): (r: Result<(seq<int>, seq<Token>)>)
    ensures r.Success? ==> |r.value.1| <= |s|
    decreases if n > 0 then n else 0
  {
    if n <= 0 then Success((acc, s))
    else match TakeNum(s)
      case Failure(e) => Failure(e)
      case Success((x, s1)) => DecodeCoords(s1, n - 1, acc + [x])
  }

  /** ReadPointFrom: clears the point, reads the dimension and that many coordinates. */
  function DecodePoint(s: seq<Token>): (r: Result<(Point, seq<Token>)>)
    ensures r.Success? ==> |r.value.1| < |s|
  {
    match TakeNum(s)
    case Failure(e) => Failure(e)
    case Success((n, s1)) =>
      match DecodeCoords(s1, n, [])
      case Failure(e) => Failure(e)
      case Success((xs, s2)) => Success((Point(xs), s2))
  }

  lemma {:induction false} CoordsRoundTrip(xs: seq<int>, acc: seq<int>, rest: seq<Token>)
    ensures DecodeCoords(NumTokens(xs) + rest, |xs|, acc) == Success((acc + xs, rest))
    decreases |xs|
  {
    if xs == [] {
      assert NumTokens(xs) + rest == rest;
      assert acc + xs == acc;
    } else {
      var s := NumTokens(xs) + rest;
      assert s[1..] == NumTokens(xs[1..]) + rest;
      CoordsRoundTrip(xs[1..], acc + [xs[0]], rest);
      assert acc + [xs[0]] + xs[1..] == acc + xs;
    }
  }

  /** Reading back what WritePointTo wrote yields the same point and leaves
      whatever follows unread. */
  lemma PointRoundTrip(p: Point, rest: seq<Token>)
    ensures DecodePoint(EncodePoint(p) + rest) == Success((p, rest))
  {
    var s := EncodePoint(p) + rest;
    assert s[1..] == NumTokens(p.coords) + rest;
    CoordsRoundTrip(p.coords, [], rest);
    assert [] + p.coords == p.coords;
  }

  /** WritePointTo: the dimension, then the coordinates one by one. */
  method WritePointTo(p: Point, file: OutStream)
    modifies file
    ensures file.written == old(file.written) + EncodePoint(p)
  {
    file.Write(Num(|p.coords|));
    var i := 0;
    while i < |p.coords|
      invariant 0 <= i <= |p.coords|
      invariant file.written == old(file.written) + [Num(|p.coords|)] + NumTokens(p.coords[..i])
    {
      file.Write(Num(p.coords[i]));
      assert p.coords[..i + 1] == p.coords[..i] + [p.coords[i]];
      i := i + 1;
    }
    assert p.coords[..i] == p.coords;
  }

  /** ReadPointFrom: starts from no coordinates and appends the ones read. */
  method ReadPointFrom(file: InStream) returns (r: Result<Point>)
    modifies file
    ensures Delivered(DecodePoint(old(file.rest)), r, file.rest)
  {
    var coordinates: seq<int> := [];
    var size := file.ReadNum();
    if size.Failure? {
      return Failure(size.error);
    }
    ghost var afterSize := file.rest;
    var i := 0;
    while i < size.value
      invariant 0 <= i <= if size.value > 0 then size.value else 0
      invariant DecodeCoords(file.rest, size.value - i, coordinates) == DecodeCoords(afterSize, size.value, [])
    {
      var x := file.ReadNum();
      if x.Failure? {
        return Failure(x.error);
      }
      coordinates := coordinates + [x.value];
      i := i + 1;
    }
    return Success(Point(coordinates));
  }
}
