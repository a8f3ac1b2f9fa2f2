/** The version history of a persistent treap (PersistentTreapHeap.h): a
    stack of roots, one per version. Each change pushes the root of a new
    version built from the latest one; queries read the latest version; and
    cancelling pops versions off the top. */
module TreapHeaps {
  import opened Streams
  import opened Treaps

  class PTHeap {
    var heap: seq<Treap>

    /** The default history: no version at all. */
    constructor ()
      ensures heap == []
    {
      heap := [];
    }

    /** A history whose only version is `first`. */
    constructor Init(first: Treap)
      ensures heap == [first]
    {
      heap := [first];
    }

    /** The latest version (heap.back()). */
    function Latest(): Treap
      reads this
      requires |heap| > 0
    {
      heap[|heap| - 1]
    }

    /** Every version is a valid treap. */
    predicate AllValid()
      reads this
    {
      forall i :: 0 <= i < |heap| ==> Valid(heap[i])
    }

    /** InsertToTreap(index, val): pushes the latest version with val inserted
        at index; the draws rs stand for the rand() calls of the merges. */
    method InsertToTreap(index: int, val: int, rs: seq<nat>)
      requires |heap| > 0 && SizedBelow(Latest())
      modifies this
      ensures heap == old(heap) + [Insert(old(Latest()), index, val, rs)]
      ensures old(AllValid()) ==> AllValid()
      ensures old(Valid(Latest())) ==>
                var E := Elements(old(Latest()));
                var c := Clamp(index, |E|);
                Elements(Latest()) == E[..c] + [val] + E[c..]
    {
      var last := Latest();
      ghost var before := heap;
      heap := heap + [Insert(last, index, val, rs)];
      if Valid(last) {
        InsertAtPosition(last, index, val, rs);
      }
      assert forall i :: 0 <= i < |before| ==> heap[i] == before[i];
    }

    /** RemoveFromTreap(index): pushes the latest version without the element
        at index. */
    method RemoveFromTreap(index: int, rs: seq<nat>)
      requires |heap| > 0 && SizedBelow(Latest())
      modifies this
      ensures heap == old(heap) + [Remove(old(Latest()), index, rs)]
      ensures old(AllValid()) ==> AllValid()
      ensures old(Valid(Latest())) ==>
                var E := Elements(old(Latest()));
                Elements(Latest()) == if 0 <= index < |E| then E[..index] + E[index + 1..] else E
    {
      var last := Latest();
      ghost var before := heap;
      heap := heap + [Remove(last, index, rs)];
      if Valid(last) {
        RemoveAtPosition(last, index, rs);
      }
      assert forall i :: 0 <= i < |before| ==> heap[i] == before[i];
    }

    /** GetSumFromTreap(l, r): the sum of the latest version's elements l..r.
        GetSum updates the latest root in place first, which changes nothing
        when that version is valid. */
    method GetSumFromTreap(l: int, r: int) returns (s: int)
      requires |heap| > 0 && Segment(Update(Latest()), l, r).Node?
      modifies this
      ensures s == GetSum(old(Latest()), l, r)
      ensures heap == old(heap)[..|old(heap)| - 1] + [Update(old(Latest()))]
      ensures old(Valid(Latest())) ==> heap == old(heap)
      ensures old(Valid(Latest())) && 0 <= l <= r < |Elements(old(Latest()))| ==>
                s == SeqSum(Elements(old(Latest()))[l..r + 1])
    {
      var last := Latest();
      s := GetSum(last, l, r);
      heap := heap[..|heap| - 1] + [Update(last)];
      if Valid(last) && 0 <= l <= r < |Elements(last)| {
        GetSumInRange(last, l, r);
      }
    }

    /** PrintTreapSegment(out, l, r): prints the latest version's elements
        l..r in order. */
    method PrintTreapSegment(out: OutStream, l: int, r: int)
      requires |heap| > 0 && Segment(Latest(), l, r).Node?
      modifies out
      ensures out.written == old(out.written) + Printed(Elements(Segment(Latest(), l, r)))
    {
      PrintSegment(out, Latest(), l, r);
    }

    /** GetSize(): the stored size of the latest version. */
    function GetSize(): (n: int)
      reads this
      requires |heap| > 0
      ensures Valid(Latest()) ==> n == |Elements(Latest())|
    {
      ValidityGivesSize(Latest());
      Size(Latest())
    }

    /** CancelOperations(count): pops the latest count versions off the top. */
    method CancelOperations(count: int)
      requires count <= |heap|
      modifies this
      ensures heap == old(heap)[..|old(heap)| - (if count > 0 then count else 0)]
      ensures old(AllValid()) ==> AllValid()
    {
      var i := 0;
      while i < count
        invariant 0 <= i <= (if count > 0 then count else 0)
        invariant heap == old(heap)[..|old(heap)| - i]
        invariant old(AllValid()) ==> AllValid()
      {
        heap := heap[..|heap| - 1];
        i := i + 1;
      }
    }
  }

  lemma ValidityGivesSize(t: Treap)
    ensures Valid(t) ==> Size(t) == |Elements(t)|
  {
    if Valid(t) {
      ValidMeasures(t);
    }
  }
}
