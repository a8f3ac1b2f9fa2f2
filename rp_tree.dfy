/** One random-projection tree (rpTree.h): the leaf size and the root node
    it owns, built from a point set, queried by descent, and written to and
    read from a token stream. */
module RpTrees {
  import opened Outcomes
  import opened Streams
  import opened Points
  import opened RpTreeNodes

  /** A tree with leaf size ns and root `start`, built from U in dimension d. */
  ghost predicate BuiltFrom(ns: int, start: Option<RpTreeNode>, U: set<Point>, d: nat) {
    start.Some? && start.value.points == U && WellBuilt(start.value, ns, d)
  }

  class RpTree {
    var ns: int
    var start: Option<RpTreeNode>

    /** The default tree: leaf size 1 and no root. */
    constructor ()
      ensures ns == 1 && start == None
    {
      ns := 1;
      start := None;
    }

    /** The copy constructor: a deep copy of the root (which must exist). */
    constructor Copy(from: RpTree)
      requires from.start.Some?
      ensures ns == from.ns && start == from.start
    {
      CopyIsIdentical(from.start.value);
      start := Some(CopyNode(from.start.value));
      ns := from.ns;
    }

    /** RpTree(U, min_W_size): records the leaf size and builds the root. */
    static method Build(U: set<Point>, minWSize: int, ghost d: nat, ent: Entropy) returns (r: Result<RpTree>, rest: Entropy)
      requires UniformDimension(U, d)
      ensures Drawn(rest, ent)
      ensures minWSize <= 0 ==> r == Failure(InvalidParameter)
      ensures r.Failure? ==> r.error == (if minWSize <= 0 then InvalidParameter else RandomExhausted)
      ensures minWSize > 0 && |U| <= minWSize ==> r.Success?
      ensures r.Success? ==> fresh(r.value) && r.value.ns == minWSize && BuiltFrom(r.value.ns, r.value.start, U, d)
    {
      var node;
      node, rest := BuildNode(U, minWSize, d, ent);
      if node.Failure? {
        return Failure(node.error), rest;
      }
      var tree := new RpTree();
      tree.ns := minWSize;
      tree.start := Some(node.value);
      return Success(tree), rest;
    }

    /** The points a query descends to (FindKnn). */
    function FindKnn(q: Point): set<Point>
      reads this
      requires start.Some? && CanDescend(start.value, q)
    {
      TreeDownhill(start.value, q)
    }

    /** WriteTreeTo: the leaf size, then the root node. */
    method WriteTreeTo(file: OutStream)
      requires start.Some?
      modifies file
      ensures file.written == old(file.written) + EncodeTree(ns, start.value)
    {
      file.Write(Num(ns));
      WriteNodeTo(start.value, file);
    }

    /** ReadTreeFrom: the leaf size, then a root read into a fresh node. */
    method ReadTreeFrom(file: InStream) returns (r: Result<()>)
      modifies this, file
      ensures match DecodeTree(old(file.rest))
        case Success(v) => r == Success(()) && ns == v.0.0 && start == Some(v.0.1) && file.rest == v.1
        case Failure(e) => r == Failure(e)
    {
      var size := file.ReadNum();
      if size.Failure? {
        return Failure(size.error);
      }
      ns := size.value;
      var node := ReadNodeFrom(file);
      if node.Failure? {
        start := None;
        return Failure(node.error);
      }
      start := Some(node.value);
      return Success(());
    }
  }

  /** A built tree answers every query of its dimension with the points of
      one of its leaves, all of them points it was built from. */
  lemma QueryIsLeafOfTree(t: RpTree, d: nat, q: Point)
    requires t.start.Some? && WellBuilt(t.start.value, t.ns, d) && 1 <= d && Dimension(q) == d
    ensures CanDescend(t.start.value, q)
    ensures t.FindKnn(q) in LeafBags(t.start.value) && t.FindKnn(q) <= t.start.value.points
  {
    BuiltTreeIsQueryable(t.start.value, t.ns, d, q);
    DescentEndsAtLeaf(t.start.value, t.ns, d, q);
  }

  /** The layout WriteTreeTo produces. */
  ghost function EncodeTree(ns: int, root: RpTreeNode): seq<Token> {
    [Num(ns)] + EncodeNode(root)
  }

  /** What ReadTreeFrom reads: the leaf size and the root. */
  function DecodeTree(s: seq<Token>): (r: Result<((int, RpTreeNode), seq<Token>)>)
    ensures r.Success? ==> |r.value.1| < |s|
  {
    var size :- TakeNum(s);
    var root :- DecodeNode(size.1);
    Success(((size.0, root.0), root.1))
  }

  lemma TreeRoundTrip(ns: int, root: RpTreeNode, d: nat, rest: seq<Token>)
    requires NodesUniform(root, d)
    ensures DecodeTree(EncodeTree(ns, root) + rest) == Success(((ns, root), rest))
  {
    var s := EncodeTree(ns, root) + rest;
    assert s[1..] == EncodeNode(root) + rest;
    NodeRoundTrip(root, d, rest);
  }
}
