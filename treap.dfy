/** The persistent implicit treap (treap.h): nodes keep the size and the sum
    of their subtree, elements are addressed by in-order position, and every
    operation builds new nodes instead of changing old ones, so each earlier
    root still denotes its own version. The lazy `add` field is never set to
    anything but 0 and is left out. */
module Treaps {
  import opened Streams

  datatype Treap =
    | Nil
    | Node(left: Treap, val: int, right: Treap, size: int, sum: int)

  /** getSize: 0 for the empty treap, the stored size otherwise. */
  function Size(t: Treap): int {
    if t.Nil? then 0 else t.size
  }

  /** getSum: 0 for the empty treap, the stored sum otherwise. */
  function Sum(t: Treap): int {
    if t.Nil? then 0 else t.sum
  }

  /** The values in in-order, i.e. the sequence the treap stands for. */
  function Elements(t: Treap): seq<int> {
    if t.Nil? then [] else Elements(t.left) + [t.val] + Elements(t.right)
  }

  function SeqSum(s: seq<int>): int {
    if s == [] then 0 else SeqSum(s[..|s| - 1]) + s[|s| - 1]
  }

  /** Every node stores the size and the sum of its subtree. */
  predicate Valid(t: Treap) {
    t.Nil? || (
      && Valid(t.left) && Valid(t.right)
      && t.size == 1 + Size(t.left) + Size(t.right)
      && t.sum == t.val + Sum(t.left) + Sum(t.right))
  }

  /** Every node has a positive stored size (rand() % (l + r) in Merge
      divides by a positive number). */
  predicate Sized(t: Treap) {
    t.Nil? || (t.size >= 1 && Sized(t.left) && Sized(t.right))
  }

  /** The children are sized; the root itself may be the size-0 node. */
  predicate SizedBelow(t: Treap) {
    t.Nil? || (Sized(t.left) && Sized(t.right))
  }

  lemma SeqSumAppend(a: seq<int>, b: seq<int>)
    ensures SeqSum(a + b) == SeqSum(a) + SeqSum(b)
    decreases |b|
  {
    if b == [] {
      assert a + b == a;
    } else {
      assert (a + b)[..|a + b| - 1] == a + b[..|b| - 1];
      SeqSumAppend(a, b[..|b| - 1]);
    }
  }

  /** On a valid treap getSize and getSum are the length and the sum of the
      sequence it stands for, and every size is positive. */
  lemma {:induction false} ValidMeasures(t: Treap)
    requires Valid(t)
    ensures Size(t) == |Elements(t)| && Sum(t) == SeqSum(Elements(t))
    ensures Sized(t)
  {
    if t.Node? {
      ValidMeasures(t.left);
      ValidMeasures(t.right);
      NodeSum(Elements(t.left), t.val, Elements(t.right));
    }
  }

  lemma NodeSum(a: seq<int>, v: int, b: seq<int>)
    ensures SeqSum(a + [v] + b) == SeqSum(a) + v + SeqSum(b)
  {
    SeqSumAppend(a + [v], b);
    SeqSumAppend(a, [v]);
    assert [v][..0] == [];
  }

  /** update with add == 0: recomputes the node's size and sum from its
      children and keeps everything else. */
  function Update(t: Treap): (u: Treap)
    ensures u.Nil? <==> t.Nil?
    ensures t.Node? ==> u.left == t.left && u.val == t.val && u.right == t.right
    ensures t.Node? && Valid(t.left) && Valid(t.right) ==> Valid(u)
    ensures Elements(u) == Elements(t)
    ensures Valid(t) ==> u == t
    ensures SizedBelow(t) ==> Sized(u)
  {
    if t.Nil? then Nil
    else Node(t.left, t.val, t.right, 1 + Size(t.left) + Size(t.right), t.val + Sum(t.left) + Sum(t.right))
  }

  function Clamp(k: int, hi: int): int {
    if k < 0 then 0 else if k > hi then hi else k
  }

  /** Split(root, L, R, k): copies of the root path, the first k elements
      going to L and the rest to R; both results are updated. */
  function Split(t: Treap, k: int): (p: (Treap, Treap))
    decreases t
  {
    if t.Nil? then (Nil, Nil)
    else if Size(t.left) + 1 <= k then
      var (rl, rr) := Split(t.right, k - Size(t.left) - 1);
      (Update(Node(t.left, t.val, rl, t.size, t.sum)), Update(rr))
    else
      var (ll, lr) := Split(t.left, k);
      (Update(ll), Update(Node(lr, t.val, t.right, t.size, t.sum)))
  }

  /** A valid treap splits into the first min(max(k, 0), size) elements and
      the rest, both valid. */
  lemma {:induction false} SplitByPosition(t: Treap, k: int)
    requires Valid(t)
    ensures SplitsAt(t, k, Split(t, k))
    decreases t
  {
    if t.Node? {
      ValidMeasures(t.left);
      if Size(t.left) + 1 <= k {
        SplitByPosition(t.right, k - Size(t.left) - 1);
        SplitRightStep(t, k);
      } else {
        SplitByPosition(t.left, k);
        SplitLeftStep(t, k);
      }
    }
  }

  /** p is (first c elements, the rest), both valid, c = clamped k. */
  predicate SplitsAt(t: Treap, k: int, p: (Treap, Treap)) {
    var E := Elements(t);
    var c := Clamp(k, |E|);
    && Valid(p.0) && Valid(p.1)
    && Elements(p.0) == E[..c]
    && Elements(p.1) == E[c..]
  }

  lemma SplitRightStep(t: Treap, k: int)
    requires t.Node? && Valid(t) && Size(t.left) == |Elements(t.left)| && Size(t.left) + 1 <= k
    requires SplitsAt(t.right, k - Size(t.left) - 1, Split(t.right, k - Size(t.left) - 1))
    ensures SplitsAt(t, k, Split(t, k))
  {
    var El, Er := Elements(t.left), Elements(t.right);
    var E := El + [t.val] + Er;
    var k' := k - Size(t.left) - 1;
    var p := Split(t.right, k');
    var c' := Clamp(k', |Er|);
    var L := Update(Node(t.left, t.val, p.0, t.size, t.sum));
    assert Split(t, k) == (L, Update(p.1));
    assert Clamp(k, |E|) == |El| + 1 + c';
    SliceRight(El, t.val, Er, c');
  }

  lemma SplitLeftStep(t: Treap, k: int)
    requires t.Node? && Valid(t) && Size(t.left) == |Elements(t.left)| && k < Size(t.left) + 1
    requires SplitsAt(t.left, k, Split(t.left, k))
    ensures SplitsAt(t, k, Split(t, k))
  {
    var El, Er := Elements(t.left), Elements(t.right);
    var E := El + [t.val] + Er;
    var p := Split(t.left, k);
    var c := Clamp(k, |El|);
    var R := Update(Node(p.1, t.val, t.right, t.size, t.sum));
    assert Split(t, k) == (Update(p.0), R);
    assert Clamp(k, |E|) == c;
    SliceLeft(El, t.val, Er, c);
  }

  lemma SliceRight(a: seq<int>, v: int, b: seq<int>, j: int)
    requires 0 <= j <= |b|
    ensures (a + [v] + b)[..|a| + 1 + j] == a + [v] + b[..j]
    ensures (a + [v] + b)[|a| + 1 + j..] == b[j..]
  {
  }

  lemma SliceLeft(a: seq<int>, v: int, b: seq<int>, j: int)
    requires 0 <= j <= |a|
    ensures (a + [v] + b)[..j] == a[..j]
    ensures (a + [v] + b)[j..] == a[j..] + [v] + b
  {
  }

  lemma SliceOfPrefix(s: seq<int>, a: int, b: int)
    requires 0 <= a <= b <= |s|
    ensures s[..b][..a] == s[..a] && s[..b][a..] == s[a..b]
  {
  }

  /** Split only needs sized children of the root to give sized parts. */
  lemma {:induction false} SplitSized(t: Treap, k: int)
    requires SizedBelow(t)
    ensures Sized(Split(t, k).0) && Sized(Split(t, k).1)
    decreases t
  {
    if t.Node? {
      if Size(t.left) + 1 <= k {
        SplitSized(t.right, k - Size(t.left) - 1);
      } else {
        SplitSized(t.left, k);
      }
    }
  }

  /** The node `new PersistentTreap(nullptr)` builds: size 0, value 0. */
  const Placeholder: Treap := Node(Nil, 0, Nil, 0, 0)

  /** One rand() draw; an exhausted stream of draws gives 0. */
  function Draw(rs: seq<nat>): nat {
    if rs == [] then 0 else rs[0]
  }

  function Rest(rs: seq<nat>): seq<nat> {
    if rs == [] then [] else rs[1..]
  }

  /** The branch of Merge that keeps L's root on top: rand() % (l + r) > r. */
  predicate LeftOnTop(rs: seq<nat>, l: int, r: int)
    requires l + r > 0
  {
    Draw(rs) % (l + r) > r
  }

  /** Merge(L, R) as written: with an empty side it copies the other one, and
      with both sides empty that copy is the size-0 placeholder; otherwise
      rand() % (l + r) > r keeps L's root on top. Returns the draws left. */
  function MergeAsWritten(L: Treap, R: Treap, rs: seq<nat>): (m: (Treap, seq<nat>))
    requires Sized(L) && Sized(R)
    decreases L, R
  {
    if L.Nil? && R.Nil? then (Placeholder, rs)
    else if L.Nil? then (R, rs)
    else if R.Nil? then (L, rs)
    else if LeftOnTop(rs, L.size, R.size) then
      var (merged, rest) := MergeAsWritten(L.right, R, Rest(rs));
      (Update(Node(L.left, L.val, merged, L.size, L.sum)), rest)
    else
      var (merged, rest) := MergeAsWritten(L, R.left, Rest(rs));
      (Update(Node(merged, R.val, R.right, R.size, R.sum)), rest)
  }

  /** Merging with both sides empty yields a node that is not a valid treap:
      it stores size 0 yet holds the element 0. */
  lemma EmptyMergeIsPlaceholder(rs: seq<nat>)
    ensures MergeAsWritten(Nil, Nil, rs).0 == Placeholder
    ensures !Valid(Placeholder) && Size(Placeholder) == 0 && Elements(Placeholder) == [0]
  {
  }

  /** Merge with the empty case returning the empty treap. */
  function Merge(L: Treap, R: Treap, rs: seq<nat>): (m: (Treap, seq<nat>))
    requires Sized(L) && Sized(R)
  {
    if L.Nil? && R.Nil? then (Nil, rs) else MergeAsWritten(L, R, rs)
  }

  /** Whatever the draws, merging two valid treaps gives a valid treap for
      L's sequence followed by R's. */
  lemma {:induction false} MergeConcatenates(L: Treap, R: Treap, rs: seq<nat>)
    requires Valid(L) && Valid(R)
    ensures Sized(L) && Sized(R)
    ensures Joins(L, R, Merge(L, R, rs).0)
    decreases L, R
  {
    ValidMeasures(L);
    ValidMeasures(R);
    if L.Node? && R.Node? {
      if LeftOnTop(rs, L.size, R.size) {
        MergeConcatenates(L.right, R, Rest(rs));
        MergeLeftRootStep(L, R, rs);
      } else {
        MergeConcatenates(L, R.left, Rest(rs));
        MergeRightRootStep(L, R, rs);
      }
    } else if L.Nil? {
      assert Elements(L) + Elements(R) == Elements(R);
    } else {
      assert Elements(L) + Elements(R) == Elements(L);
    }
  }

  /** m is a valid treap for L's sequence followed by R's. */
  predicate Joins(L: Treap, R: Treap, m: Treap) {
    Valid(m) && Elements(m) == Elements(L) + Elements(R)
  }

  lemma MergeLeftRootStep(L: Treap, R: Treap, rs: seq<nat>)
    requires L.Node? && R.Node? && Valid(L) && Valid(R) && Sized(L) && Sized(R)
    requires LeftOnTop(rs, L.size, R.size)
    requires Joins(L.right, R, Merge(L.right, R, Rest(rs)).0)
    ensures Joins(L, R, Merge(L, R, rs).0)
  {
    var merged := MergeAsWritten(L.right, R, Rest(rs)).0;
    assert merged == Merge(L.right, R, Rest(rs)).0;
    assert Merge(L, R, rs).0 == Update(Node(L.left, L.val, merged, L.size, L.sum));
    Regroup(Elements(L.left), L.val, Elements(L.right), Elements(R));
  }

  lemma MergeRightRootStep(L: Treap, R: Treap, rs: seq<nat>)
    requires L.Node? && R.Node? && Valid(L) && Valid(R) && Sized(L) && Sized(R)
    requires !LeftOnTop(rs, L.size, R.size)
    requires Joins(L, R.left, Merge(L, R.left, Rest(rs)).0)
    ensures Joins(L, R, Merge(L, R, rs).0)
  {
    var merged := MergeAsWritten(L, R.left, Rest(rs)).0;
    assert merged == Merge(L, R.left, Rest(rs)).0;
    assert Merge(L, R, rs).0 == Update(Node(merged, R.val, R.right, R.size, R.sum));
    Regroup(Elements(L), R.val, Elements(R.left), Elements(R.right));
  }

  lemma Regroup(a: seq<int>, v: int, b: seq<int>, c: seq<int>)
    ensures a + [v] + (b + c) == (a + [v] + b) + c
    ensures (a + b) + [v] + c == a + (b + [v] + c)
  {
  }

  /** Merging sized treaps that are not both empty gives a sized treap. */
  lemma {:induction false} MergeSized(L: Treap, R: Treap, rs: seq<nat>)
    requires Sized(L) && Sized(R)
    ensures !(L.Nil? && R.Nil?) ==> Sized(MergeAsWritten(L, R, rs).0)
    ensures Sized(Merge(L, R, rs).0)
    decreases L, R
  {
    if L.Node? && R.Node? {
      if LeftOnTop(rs, L.size, R.size) {
        MergeSized(L.right, R, Rest(rs));
      } else {
        MergeSized(L, R.left, Rest(rs));
      }
    }
  }

  /** Insert(root, index, x): split at index, then merge L, the new node and R. */
  function Insert(t: Treap, index: int, x: int, rs: seq<nat>): (r: Treap)
    requires SizedBelow(t)
  {
    SplitSized(t, index);
    var p := Split(t, index);
    var single := Node(Nil, x, Nil, 1, x);
    MergeSized(p.0, single, rs);
    var m := Merge(p.0, single, rs);
    Merge(m.0, p.1, m.1).0
  }

  /** Inserting at index puts x at position min(max(index, 0), size). */
  lemma InsertAtPosition(t: Treap, index: int, x: int, rs: seq<nat>)
    requires Valid(t)
    ensures SizedBelow(t)
    ensures var c := Clamp(index, |Elements(t)|);
      Valid(Insert(t, index, x, rs)) && Elements(Insert(t, index, x, rs)) == Elements(t)[..c] + [x] + Elements(t)[c..]
  {
    ValidMeasures(t);
    SplitByPosition(t, index);
    var p := Split(t, index);
    var single := Node(Nil, x, Nil, 1, x);
    assert Elements(single) == [x];
    MergeConcatenates(p.0, single, rs);
    var m := Merge(p.0, single, rs);
    MergeConcatenates(m.0, p.1, m.1);
    assert Insert(t, index, x, rs) == Merge(m.0, p.1, m.1).0;
  }

  /** Remove(root, index) with the empty result merged as written. */
  function RemoveAsWritten(t: Treap, index: int, rs: seq<nat>): (r: Treap)
    requires SizedBelow(t)
  {
    SplitSized(t, index + 1);
    var p := Split(t, index + 1);
    SplitSized(p.0, index);
    MergeAsWritten(Split(p.0, index).0, p.1, rs).0
  }

  /** Remove(root, index): split off the first index + 1 elements, split
      those at index, and merge the outer parts. */
  function Remove(t: Treap, index: int, rs: seq<nat>): (r: Treap)
    requires SizedBelow(t)
  {
    SplitSized(t, index + 1);
    var p := Split(t, index + 1);
    SplitSized(p.0, index);
    Merge(Split(p.0, index).0, p.1, rs).0
  }

  /** Removing drops the element at index when 0 <= index < size and
      leaves the sequence as it is otherwise. */
  lemma RemoveAtPosition(t: Treap, index: int, rs: seq<nat>)
    requires Valid(t)
    ensures SizedBelow(t)
    ensures var E := Elements(t);
      && Valid(Remove(t, index, rs))
      && (0 <= index < |E| ==> Elements(Remove(t, index, rs)) == E[..index] + E[index + 1..])
      && (index < 0 || index >= |E| ==> Elements(Remove(t, index, rs)) == E)
  {
    ValidMeasures(t);
    var E := Elements(t);
    SplitByPosition(t, index + 1);
    var p := Split(t, index + 1);
    SplitByPosition(p.0, index);
    var newL := Split(p.0, index).0;
    MergeConcatenates(newL, p.1, rs);
    var c1 := Clamp(index + 1, |E|);
    var c2 := Clamp(index, c1);
    SliceOfPrefix(E, c2, c1);
    OuterParts(E, c2, c1);
  }

  lemma OuterParts(s: seq<int>, a: int, b: int)
    requires 0 <= a <= b <= |s|
    ensures b == a + 1 ==> s[..a] + s[b..] == s[..a] + s[a + 1..]
    ensures a == b ==> s[..a] + s[b..] == s
  {
  }

  /** A leaf that claims size 0 behaves, once split, like a real element:
      inserting y in front of it yields y followed by its value. */
  lemma InsertBeforeZeroSizeLeaf(z: Treap, y: int, rs: seq<nat>)
    requires z.Node? && z.left.Nil? && z.right.Nil? && z.size == 0
    ensures SizedBelow(z) && Elements(Insert(z, 0, y, rs)) == [y, z.val]
  {
    var p := Split(z, 0);
    assert Split(z.left, 0).0.Nil? && Split(z.left, 0).1.Nil?;
    assert p.0.Nil? && p.1 == Node(Nil, z.val, Nil, 1, z.val);
    var single := Node(Nil, y, Nil, 1, y);
    var m := Merge(p.0, single, rs);
    assert m.0 == single && m.1 == rs;
    assert !LeftOnTop(rs, 1, 1);
    var inner := Merge(single, Nil, Rest(rs)).0;
    assert inner == single;
    assert Merge(m.0, p.1, m.1).0 == Update(Node(inner, z.val, Nil, 1, z.val));
  }

  /** Removing the only element and then inserting y, as written: the
      node left behind claims size 0 but holds an element 0, which the next
      insertion turns into a real element next to y. */
  lemma RemoveLastThenInsertAsWritten(x: int, y: int, rs: seq<nat>)
    ensures var emptied := RemoveAsWritten(Node(Nil, x, Nil, 1, x), 0, rs);
      && emptied.Node? && emptied.left.Nil? && emptied.right.Nil? && emptied.val == 0 && Size(emptied) == 0
      && SizedBelow(emptied) && Elements(Insert(emptied, 0, y, rs)) == [y, 0]
  {
    var only := Node(Nil, x, Nil, 1, x);
    assert Split(only, 1).0 == only && Split(only, 1).1.Nil?;
    assert Split(only, 0).0.Nil?;
    var emptied := RemoveAsWritten(only, 0, rs);
    assert emptied.left.Nil? && emptied.right.Nil? && emptied.val == 0 && emptied.size == 0;
    InsertBeforeZeroSizeLeaf(emptied, y, rs);
  }

  /** The same with the empty merge giving the empty treap: only y is left. */
  lemma RemoveLastThenInsert(x: int, y: int, rs: seq<nat>)
    ensures var emptied := Remove(Node(Nil, x, Nil, 1, x), 0, rs);
      emptied == Nil && Elements(Insert(emptied, 0, y, rs)) == [y]
  {
    var only := Node(Nil, x, Nil, 1, x);
    assert Split(only, 1).0 == only && Split(only, 1).1.Nil?;
    assert Split(only, 0).0.Nil?;
    InsertAtPosition(Nil, 0, y, rs);
  }

  /** The part of Elements(t) that GetSum and PrintSegment read: L gets the
      first r + 1 elements, and new_R is L without its first l. */
  function Segment(t: Treap, l: int, r: int): Treap {
    Split(Split(t, r + 1).0, l).1
  }

  /** GetSum(root, l, r): the root is updated in place, then new_R->sum is
      read, which needs new_R to exist. */
  function GetSum(t: Treap, l: int, r: int): int
    requires Segment(Update(t), l, r).Node?
  {
    Segment(Update(t), l, r).sum
  }

  /** On a valid treap the segment is the elements l..r clamped to the
      treap; it exists exactly when it holds an element, and GetSum adds
      it up. */
  lemma GetSumIsRangeSum(t: Treap, l: int, r: int)
    requires Valid(t)
    ensures var E := Elements(t);
      var b := Clamp(r + 1, |E|);
      var a := Clamp(l, b);
      && Elements(Segment(t, l, r)) == E[a..b]
      && (Segment(Update(t), l, r).Node? <==> a < b)
      && (a < b ==> GetSum(t, l, r) == SeqSum(E[a..b]))
  {
    SegmentOfValid(t, l, r);
    var S := Segment(t, l, r);
    ValidMeasures(S);
    assert S.Node? <==> |Elements(S)| > 0;
  }

  lemma SegmentOfValid(t: Treap, l: int, r: int)
    requires Valid(t)
    ensures var E := Elements(t);
      var b := Clamp(r + 1, |E|);
      Valid(Segment(t, l, r)) && Elements(Segment(t, l, r)) == E[Clamp(l, b)..b]
  {
    var E := Elements(t);
    var b := Clamp(r + 1, |E|);
    SplitByPosition(t, r + 1);
    SplitByPosition(Split(t, r + 1).0, l);
    SliceOfPrefix(E, Clamp(l, b), b);
  }

  /** For 0 <= l <= r < size, GetSum is the sum of the elements l..r. */
  lemma GetSumInRange(t: Treap, l: int, r: int)
    requires Valid(t) && 0 <= l <= r < |Elements(t)|
    ensures Segment(Update(t), l, r).Node?
    ensures GetSum(t, l, r) == SeqSum(Elements(t)[l..r + 1])
  {
    GetSumIsRangeSum(t, l, r);
  }

  /** Search(now_root, out): the in-order values, each written as a number. */
  method Search(t: Treap, out: OutStream)
    requires t.Node?
    modifies out
    ensures out.written == old(out.written) + Printed(Elements(t))
    decreases t
  {
    if t.left != Nil {
      Search(t.left, out);
    }
    out.Write(Num(t.val));
    if t.right != Nil {
      Search(t.right, out);
    }
    PrintedAppend(Elements(t.left), [t.val], Elements(t.right));
  }

  /** The tokens the printing of a sequence of values writes. */
  function Printed(s: seq<int>): (r: seq<Token>)
    ensures |r| == |s| && forall i :: 0 <= i < |s| ==> r[i] == Num(s[i])
  {
    seq(|s|, i requires 0 <= i < |s| => Num(s[i]))
  }

  lemma PrintedAppend(a: seq<int>, b: seq<int>, c: seq<int>)
    ensures Printed(a + b + c) == Printed(a) + Printed(b) + Printed(c)
  {
    assert |Printed(a + b + c)| == |Printed(a) + Printed(b) + Printed(c)|;
  }

  /** PrintSegment(out, root, l, r): prints the segment new_R, which must exist. */
  method PrintSegment(out: OutStream, t: Treap, l: int, r: int)
    requires Segment(t, l, r).Node?
    modifies out
    ensures out.written == old(out.written) + Printed(Elements(Segment(t, l, r)))
  {
    var L := Split(t, r + 1).0;
    var newR := Split(L, l).1;
    Search(newR, out);
  }
}
