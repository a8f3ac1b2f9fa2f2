# rpForest and PersistenceTreap in Dafny

This project models two small C++ libraries and proves properties of the models.

**rpForest** is an approximate k-nearest-neighbour index built from random-projection trees.
- A point is an int coordinate vector. It has a dimension, the lexicographic order that `std::set<Point>` sorts by, an equality that throws on mismatched dimensions, a distance, and a binary layout (`pointForRpTree.h`).
- A tree node is built recursively from a point set U (`rpTreeNode.h`):
  - it draws a witness subsample W by coin flips, retrying until |W| ≥ Ns;
  - it picks a split axis among ⌊D/2⌋ random trials by an integer variance score;
  - it takes the median of W's projections as the threshold;
  - it splits W into the points strictly below the threshold and the rest, and recurses when both halves are non-empty.
- A query descends a single path to a leaf bag. Nodes are written and read recursively, and deep copy is modelled too.
- A tree (`rpTree.h`) holds the leaf size Ns and the root.
- A forest (`rpForest.h`) holds the training set, the recorded tree count and the trees. It has a sequential constructor and the thread-count arithmetic of the threaded one. `KnnForPoint` takes the union of the per-tree leaf bags, sorts it by distance and cuts it to k. The forest also has its own write/read format.

**PersistenceTreap** is a persistent implicit treap with a stack of versions.
- Nodes store the size and the sum of their subtree, and elements are addressed by in-order position (`treap.h`).
- `Split` and `Merge` copy nodes instead of changing them, so every old root still denotes its version. `Insert`, `Remove`, the range sum `GetSum` and `PrintSegment` are built on them.
- `PTHeap` (`PersistentTreapHeap.h`) is a vector of roots: changes push a new version, and `CancelOperations` pops versions off.

## How the model is organised

- `outcomes.dfy` (`Outcomes`): the error kinds and a `Result`/`Option` pair. The C++ code throws `PointException`, `RpTreeNodeExpression` and `RpForestExperssion`; the model returns `Failure(...)` instead.
- `streams.dfy` (`Streams`): `ofstream`/`ifstream` become the classes `OutStream` (everything written so far) and `InStream` (what is left to read). Each raw `int` or `bool` field is one `Token`.
- `points.dfy` (`Points`):
  - `Point` is a datatype;
  - the iteration order of a `std::set<Point>` is the ghost function `Ordered`, which repeatedly takes the lexicographic minimum;
  - `Distance` returns the squared distance (see "Left out").
- `sorting.dfy` (`Sorting`): `std::sort` is a pure insertion sort by an integer key, proved sorted and a permutation.
- `rp_tree_node.dfy` (`RpTreeNodes`):
  - `RpTreeNode` is a datatype that owns its children, because a node never changes after it is built or read;
  - the build, the axis choice, the threshold and the partition are methods with loops;
  - the random draws come from an `Entropy` value: the `rand()` coin flips and the `mt19937` axis trials are finite streams consumed front first.
- `rp_tree.dfy` (`RpTrees`) and `rp_forest.dfy` (`RpForests`): `RpTree` and `RpForest` are classes whose fields the methods update.
- `treap.dfy` (`Treaps`):
  - the treap is a datatype, and persistence is value semantics;
  - `rand()` in `Merge` becomes a sequence of draws `rs`, and an exhausted sequence draws 0;
  - `update`, which changes a node in place, becomes the function `Update` applied to the fresh copy.
- `treap_heap.dfy` (`TreapHeaps`): `PTHeap` is a class with the field `heap: seq<Treap>`.

Where the documentation of the library and its code disagree, the model follows the code:
- The k-NN comparator compares distances only. The documentation says ties are broken by the point order; the code does not do that.
- `res.size() > k` compares against k converted to `size_t`, so a negative k never truncates (`Keep`).
- A dimension mismatch in a query is raised only by `std::set` insertion or by the comparator, and the comparator runs only with two or more candidates (`ComparatorFails`).

## Model

| member | source | states |
|---|---|---|
| Points.FromVector | rpForest/rpForestlib/pointForRpTree.h:38-40 | The point keeps the vector: its dimension is the vector's length and every coordinate equals the vector's entry. |
| Points.WithDimension | rpForest/rpForestlib/pointForRpTree.h:45-50 | It fails with InvalidParameter exactly when dimension ≤ 0. Otherwise it has exactly `dimension` coordinates, all 0. |
| Points.Less | rpForest/rpForestlib/pointForRpTree.h:69-75 | It fails with DimensionMismatch exactly when the dimensions differ. |
| Points.LessIsStrictTotalOrder | rpForest/rpForestlib/pointForRpTree.h:69-83 | On points of one dimension, `<` and `==` never throw, and `<` is irreflexive, asymmetric and transitive. Two points are unequal exactly when one is less than the other. |
| Points.Equal | rpForest/rpForestlib/pointForRpTree.h:77-83 | It fails exactly on different dimensions. Otherwise it is true iff every coordinate agrees. |
| Points.NotEqual | rpForest/rpForestlib/pointForRpTree.h:85-87 | It fails exactly when `==` fails, and is otherwise the negation of `==`. |
| Points.SquaredDistanceIsMetricLike | rpForest/rpForestlib/pointForRpTree.h:148-151 | The sum of squared differences is ≥ 0 and symmetric. On equal dimensions it is 0 exactly for identical points. |
| Points.Distance | rpForest/rpForestlib/pointForRpTree.h:142-154 | It fails with DimensionMismatch on different dimensions. Otherwise the loop's accumulated sum is the squared distance. |
| Points.OrderedIsPermutation | rpForest/rpForestlib/rpForest.h:68-71 | The `std::set` iteration visits every element exactly once. |
| Points.Elements | rpForest/rpForestlib/rpForest.h:68-71 | Copying a set out by iteration gives the elements in ascending point order. |
| Points.TakeLeast | rpForest/rpForestlib/rpTreeNode.h:75 | The element iteration visits first is a member, and the rest of the iteration is the iteration of the remaining set. |
| Points.PointRoundTrip | rpForest/rpForestlib/pointForRpTree.h:93-116 | Reading back what WritePointTo wrote yields the same point, and whatever follows is left unread. |
| Points.WritePointTo | rpForest/rpForestlib/pointForRpTree.h:93-100 | It appends the dimension and then every coordinate, in order. |
| Points.ReadPointFrom | rpForest/rpForestlib/pointForRpTree.h:106-116 | It starts from no coordinates, reads the dimension and that many coordinates, and returns and consumes exactly what DecodePoint prescribes (or its error). |
| Points.EncodePoint | rpForest/rpForestlib/pointForRpTree.h:93-100 | The layout of a point has one token for the dimension and one per coordinate. |
| Streams.TakeNum | rpForest/rpForestlib/pointForRpTree.h:110 | One int field is read exactly when the stream starts with a number, and the rest of the stream follows it. |
| Sorting.SortBy | rpForest/rpForestlib/rpTreeNode.h:96 | The result is sorted by the key and is a permutation of the input. |
| RpTreeNodes.DrawWitness | rpForest/rpForestlib/rpTreeNode.h:73-84 | The loop draws whole passes of \|U\| coins. On success W ⊆ U and \|W\| ≥ Ns, W is exactly the coin selection of the last pass drawn, and every earlier pass kept fewer than Ns points (ShortPasses), so W comes from the first pass to keep Ns. It fails with RandomExhausted only when fewer than \|U\| coins remain after passes that all kept fewer than Ns. |
| RpTreeNodes.ShortPassesAreWhole | rpForest/rpForestlib/rpTreeNode.h:74-84 | The passes thrown away use a whole multiple of \|U\| coins. |
| RpTreeNodes.CoinPass | rpForest/rpForestlib/rpTreeNode.h:75-79 | One pass inserts exactly the points, in set order, whose coin is odd. |
| RpTreeNodes.CoinSelectionWithin | rpForest/rpForestlib/rpTreeNode.h:75-79 | A coin selection of U is a subset of U. |
| RpTreeNodes.AxisScore | rpForest/rpForestlib/rpTreeNode.h:209-221 | The two accumulation loops compute Score: the sum, the average and the dispersion, with the source's unsigned division by W.size(). |
| RpTreeNodes.WhichProjection | rpForest/rpForestlib/rpTreeNode.h:200-230 | The result is an axis in [0, D). It is 0 when no trial has a positive score; otherwise it is the axis of the first trial with the best score, strictly above every earlier one. Exactly nTry draws are used. |
| RpTreeNodes.Projections | rpForest/rpForestlib/rpTreeNode.h:91-95 | The projection vector has one entry per witness, and each entry is that point's coordinate on the axis. |
| RpTreeNodes.ProjectionsOf | rpForest/rpForestlib/rpTreeNode.h:91-95 | The loop collects the projections of W in set order. |
| RpTreeNodes.Threshold | rpForest/rpForestlib/rpTreeNode.h:96-98 | mid is the element at index size/2 of the sorted projections, and it is the projection of some point of W. |
| RpTreeNodes.MedianIsProjection | rpForest/rpForestlib/rpTreeNode.h:96-98 | The median of the sorted projections is attained by a point of W. |
| RpTreeNodes.Partition | rpForest/rpForestlib/rpTreeNode.h:100-107 | WL is exactly the points of W below mid on the axis, and WR is exactly the points at or above it. |
| RpTreeNodes.PartitionIsSplit | rpForest/rpForestlib/rpTreeNode.h:100-112 | Splitting at the median of W gives disjoint halves whose union is W. WR always holds a point at mid, so it is never empty. |
| RpTreeNodes.DrawSample | rpForest/rpForestlib/rpTreeNode.h:71-84 | W = U, with no coin used, when \|U\| < 2·Ns. Otherwise W is the coin selection of one full pass over U, with \|W\| ≥ Ns. Failure is RandomExhausted and happens only in the retry loop. |
| RpTreeNodes.SplitSample | rpForest/rpForestlib/rpTreeNode.h:86-107 | It fails exactly when fewer than nTry trials remain. Otherwise it uses exactly max(nTry, 0) trials, the axis is whichProjection's choice in them, mid is element \|W\|/2 of W's sorted projections on it, WL is the witnesses below mid and WR the rest. |
| RpTreeNodes.ChooseSplit | rpForest/rpForestlib/rpTreeNode.h:71-107 | A successful split is ChosenSplit: W is a sample of U (IsSample), the axis is whichProjection's choice in the first D/2 trials, mid is element \|W\|/2 of W's sorted projections, and WL/WR are W below and at-or-above mid. Exactly D/2 trials are used. |
| RpTreeNodes.ChosenSplitOf | rpForest/rpForestlib/rpTreeNode.h:96-107 | A median split of a sample of U is a split of U: disjoint halves covering W, a point of WR at mid, and the axis inside D. |
| RpTreeNodes.HalvesAreSmaller | rpForest/rpForestlib/rpTreeNode.h:109-112 | When both halves are non-empty, each has fewer points than U and the dimension of U, so the recursion terminates. |
| RpTreeNodes.SplitNodeIsWellBuilt | rpForest/rpForestlib/rpTreeNode.h:86-114 | A node that stores U, the chosen split's axis and mid, and children built from WL and WR exactly when both are non-empty, is WellBuilt. |
| RpTreeNodes.SplitShape | rpForest/rpForestlib/rpTreeNode.h:100-112 | Every non-leaf node of a built tree splits on an axis inside D, and its children hold disjoint, non-empty subsets of its points and are built themselves. |
| RpTreeNodes.BuildNode | rpForest/rpForestlib/rpTreeNode.h:62-114 | It fails with InvalidParameter exactly when min_W_size ≤ 0, and otherwise only with RandomExhausted. When \|U\| ≤ Ns the node is a leaf holding U and no draw is used. A successful build stores U as node_points and is WellBuilt: every node above Ns points stores the axis and mid of a ChosenSplit of its points, and has children exactly when WL and WR are both non-empty, built recursively from WL and WR. |
| RpTreeNodes.ChildrenAreSmaller | rpForest/rpForestlib/rpTreeNode.h:109-112 | Each child's point set is strictly smaller than its parent's. |
| RpTreeNodes.BuiltTreeIsQueryable | rpForest/rpForestlib/rpTreeNode.h:116-128 | A query of the tree's dimension can descend every built tree without an out-of-range axis. |
| RpTreeNodes.DescentEndsAtLeaf | rpForest/rpForestlib/rpTreeNode.h:116-128 | The descent returns the point bag of a leaf of the tree, which is a subset of the root's point set. |
| RpTreeNodes.LeafBagsWithinRoot | rpForest/rpForestlib/rpTreeNode.h:62-114 | Every leaf bag of a built tree is a subset of its root's U. |
| RpTreeNodes.WellBuiltIsNested | rpForest/rpForestlib/rpTreeNode.h:100-112 | In a built tree every child holds a subset of its parent's points, at every depth. |
| RpTreeNodes.NestedLeafBags | rpForest/rpForestlib/rpTreeNode.h:116-128 | When children hold subsets of their parents' points, every leaf bag is a subset of the root's points. |
| RpTreeNodes.CopyIsIdentical | rpForest/rpForestlib/rpTreeNode.h:249-263 | A deep copy is structurally identical to its source. |
| RpTreeNodes.InsertPoint | rpForest/rpForestlib/rpTreeNode.h:165-169 | Inserting into a point set fails with DimensionMismatch exactly when a present point has a different dimension. Otherwise the point is added. |
| RpTreeNodes.EncodePointsAppend | rpForest/rpForestlib/rpTreeNode.h:139-141 | Writing one more point appends that point's layout. |
| RpTreeNodes.PointSetRoundTrip | rpForest/rpForestlib/rpTreeNode.h:165-169 | Reading back written points of one dimension inserts exactly those points. |
| RpTreeNodes.HeaderRoundTrip | rpForest/rpForestlib/rpTreeNode.h:130-138 | The four header fields (size, mid, axis, Ns) read back as written. |
| RpTreeNodes.NodeRoundTrip | rpForest/rpForestlib/rpTreeNode.h:130-187 | Reading back WriteNodeTo's output yields the same node: points, mid, axis, Ns and the whole shape. What follows is left unread. |
| RpTreeNodes.ChildRoundTrip | rpForest/rpForestlib/rpTreeNode.h:143-153 | A has-child flag, followed by the child when present, reads back as the same optional child. |
| RpTreeNodes.WellBuiltIsUniform | rpForest/rpForestlib/rpTreeNode.h:62-114 | Every node of a built tree holds points of the one dimension D. |
| RpTreeNodes.WriteNodeTo | rpForest/rpForestlib/rpTreeNode.h:130-154 | It appends the header, the points in set order, then for each side the has-child flag and the child. |
| RpTreeNodes.WriteHeader | rpForest/rpForestlib/rpTreeNode.h:131-138 | It appends size, mid, axis and Ns. |
| RpTreeNodes.WritePoints | rpForest/rpForestlib/rpTreeNode.h:139-141 | It appends the layout of each point in order. |
| RpTreeNodes.WriteChild | rpForest/rpForestlib/rpTreeNode.h:143-153 | It appends the flag and, when present, the child. |
| RpTreeNodes.ReadNodeFrom | rpForest/rpForestlib/rpTreeNode.h:156-187 | It returns and consumes exactly what DecodeNode prescribes, or its error. |
| RpTreeNodes.ReadPointSet | rpForest/rpForestlib/rpTreeNode.h:158-169 | It reads n points into an empty set, as DecodePointSet prescribes. |
| RpTreeNodes.ReadChild | rpForest/rpForestlib/rpTreeNode.h:174-185 | It reads the flag and then, when set, a child node. |
| RpTrees.RpTree.constructor | rpForest/rpForestlib/rpTree.h:16 | The default tree has Ns = 1 and no root. |
| RpTrees.RpTree.Copy | rpForest/rpForestlib/rpTree.h:17-21 | The copy has the same Ns and a root identical to the source's, which must exist. |
| RpTrees.RpTree.Build | rpForest/rpForestlib/rpTree.h:30-34 | It fails with InvalidParameter exactly when min_W_size ≤ 0, and otherwise only with RandomExhausted. It never fails when \|U\| ≤ min_W_size. A built tree is fresh, records Ns and has a root holding U that is WellBuilt with the same Ns (the constructor's chosen splits at every node). |
| RpTrees.QueryIsLeafOfTree | rpForest/rpForestlib/rpTree.h:40-42 | FindKnn of a built tree is one of its leaf bags and a subset of U. |
| RpTrees.RpTree.WriteTreeTo | rpForest/rpForestlib/rpTree.h:49-53 | It appends Ns, then the root node. |
| RpTrees.RpTree.ReadTreeFrom | rpForest/rpForestlib/rpTree.h:59-64 | It reads Ns and then a fresh root, as DecodeTree prescribes, or fails with its error. |
| RpTrees.DecodeTree | rpForest/rpForestlib/rpTree.h:59-64 | A successful read consumes at least one token. |
| RpTrees.TreeRoundTrip | rpForest/rpForestlib/rpTree.h:49-64 | Reading back WriteTreeTo's output yields the same Ns and the same root. |
| RpForests.LeafSize | rpForest/rpForestlib/rpForest.h:36 | The leaf size is ≥ 2. It is 2 for at most 200 points, and otherwise ⌊\|U\|/100⌋. |
| RpForests.CDiv | rpForest/rpForestlib/rpForest.h:156 | C++ int division truncates toward zero for both signs. |
| RpForests.ThreadPlan | rpForest/rpForestlib/rpForest.h:152-160 | The reduction loop ends with 1 ≤ t' ≤ thread_count and a non-zero how_much / t'. |
| RpForests.ThreadedTreeCount | rpForest/rpForestlib/rpForest.h:156-166 | For how_much ≥ 1: per ≥ 1, and t'·per ≤ how_much, with equality exactly when t' divides how_much. |
| RpForests.ThreadedForestIsShort | rpForest/rpForestlib/rpForest.h:161-166 | With how_much = 5 and thread_count = 2, two threads build two trees each, so the forest is one tree short. |
| RpForests.SharesAddUp | rpForest/rpForestlib/rpForest.h:164-166 | The first m shares of a balanced distribution add up to m·⌊total/t⌋ + min(m, total mod t). |
| RpForests.AllSharesAddUp | rpForest/rpForestlib/rpForest.h:164-166 | All t shares add up to the total. |
| RpForests.CandidatesAreLeafPoints | rpForest/rpForestlib/rpForest.h:57-64 | A point is a candidate exactly when it lies in some tree's FindKnn, so the union does not depend on the order of the trees. |
| RpForests.BuiltForestQueries | rpForest/rpForestlib/rpForest.h:57-64 | For a forest built from U of dimension D and a query of dimension D, every tree can be queried, and the candidates are a subset of U of dimension D. |
| RpForests.RankedFacts | rpForest/rpForestlib/rpForest.h:66-76 | The ranking lists every candidate exactly once and is sorted by distance. |
| RpForests.RankedByDistance | rpForest/rpForestlib/rpForest.h:73-76 | Distances to q are non-decreasing along the ranking. |
| RpForests.NearestFirst | rpForest/rpForestlib/rpForest.h:73-80 | No candidate left out of the first m is closer than any of those m. |
| RpForests.Keep | rpForest/rpForestlib/rpForest.h:78-80 | The kept length never exceeds the number of candidates. For k ≥ 0 it is at most k, and below k only when every candidate is kept. A negative k keeps every candidate. |
| RpForests.RankCandidates | rpForest/rpForestlib/rpForest.h:66-80 | It fails exactly when the comparator throws. Otherwise the result is the ranking cut to k when 0 ≤ k < size, and the whole ranking otherwise. |
| RpForests.InsertAll | rpForest/rpForestlib/rpForest.h:61-63 | Inserting a leaf bag fails exactly when the union would mix dimensions. Otherwise it yields the union. |
| RpForests.WritePointSet | rpForest/rpForestlib/rpForest.h:90-95 | It appends \|U\| and the points of U in set order. |
| RpForests.WriteTrees | rpForest/rpForestlib/rpForest.h:98-100 | It appends the layouts of the first how_much trees in order. |
| RpForests.ReadTrees | rpForest/rpForestlib/rpForest.h:120-124 | It reads n trees, each into a fresh tree, and pushes copies with those Ns and roots. It stops with the first read error. |
| RpForests.TreesRoundTrip | rpForest/rpForestlib/rpForest.h:96-124 | Reading back the layouts of the trees yields the same trees. |
| RpForests.UniformPointsRoundTrip | rpForest/rpForestlib/rpForest.h:111-117 | Reading back U's points in set order restores U. |
| RpForests.CountedTreesRoundTrip | rpForest/rpForestlib/rpForest.h:119-124 | The tree loop bounded by the recorded count reads back exactly the written trees. |
| RpForests.ForestRoundTrip | rpForest/rpForestlib/rpForest.h:89-125 | Reading back WriteForestTo's output restores U, how_much and every tree, and leaves what follows unread. |
| RpForests.RpForest.constructor | rpForest/rpForestlib/rpForest.h:128-130 | The default forest has no points, records one tree and builds none. |
| RpForests.RpForest.Sequential | rpForest/rpForestlib/rpForest.h:32-40 | It records train and how_much and builds exactly max(how_much, 0) trees. Every tree has the leaf size max(2, ⌊\|train\|/100⌋) and a root holding train that is WellBuilt, i.e. made with the node constructor's chosen splits. |
| RpForests.RpForest.MakeTrees | rpForest/rpForestlib/rpForest.h:138-145 | It appends trees_count trees, each with train's leaf size and a WellBuilt root holding train. The U field, the recorded count and the earlier trees are unchanged. |
| RpForests.RpForest.Threaded | rpForest/rpForestlib/rpForest.h:147-167 | It fails with InvalidParameter when thread_count ≤ 0, and with LengthError when how_much < 0 (the `reserve` call). Otherwise it records how_much but builds t'·per trees, each with a WellBuilt root holding train. |
| RpForests.RpForest.ThreadedBalanced | rpForest/rpForestlib/rpForest.h:147-167 | The threaded constructor with the remainder shared out. It has the same failures (InvalidParameter, LengthError) and otherwise builds exactly the how_much trees it records, each with a WellBuilt root holding train. |
| RpForests.RpForest.KnnForPoint | rpForest/rpForestlib/rpForest.h:56-83 | It fails exactly when the union mixes dimensions or the comparator throws. Otherwise the result is the union ranked by distance and cut to k. |
| RpForests.RpForest.CollectCandidates | rpForest/rpForestlib/rpForest.h:57-64 | all_knn is the union of every tree's leaf bag, or DimensionMismatch exactly when that union mixes dimensions. |
| RpForests.RpForest.WriteForestTo | rpForest/rpForestlib/rpForest.h:89-101 | It appends \|U\|, the points, how_much and the first how_much trees. It needs at least how_much trees. |
| RpForests.RpForest.ReadForestFrom | rpForest/rpForestlib/rpForest.h:107-125 | It clears U and the forest, then restores U, how_much and the trees as DecodeForest prescribes, or fails with its error. |
| Treaps.ValidMeasures | PersistenceTreap/treap.h:50-64 | In a valid treap, getSize is the number of elements and getSum is their sum. Every stored size is ≥ 1. |
| Treaps.Update | PersistenceTreap/treap.h:66-84 | update keeps the children and the value, and leaves the sequence unchanged. It makes the node valid when its children are, and changes nothing in a valid treap. |
| Treaps.SplitByPosition | PersistenceTreap/treap.h:103-123 | L holds the first min(max(k, 0), size) elements and R holds the rest, and both are valid. The input is a value, so its version is untouched. |
| Treaps.SplitSized | PersistenceTreap/treap.h:103-123 | When the children have positive stored sizes, both parts of a split do too, even when the root itself stores size 0: `update` recomputes the size of every node on the split path. |
| Treaps.EmptyMergeIsPlaceholder | PersistenceTreap/treap.h:125-132 | Merging two empty treaps as written gives the size-0 node: it is not valid, and it holds the element 0. |
| Treaps.MergeSized | PersistenceTreap/treap.h:125-150 | Merging sized treaps gives a sized treap, apart from the empty-empty placeholder. |
| Treaps.MergeConcatenates | PersistenceTreap/treap.h:125-150 | Whatever the random draws, merging valid treaps gives a valid treap whose sequence is L's followed by R's. |
| Treaps.InsertAtPosition | PersistenceTreap/treap.h:152-168 | Inserting x at index gives a valid treap for E[..c] + [x] + E[c..], where c = min(max(index, 0), size). |
| Treaps.RemoveAtPosition | PersistenceTreap/treap.h:170-194 | For 0 ≤ i < size the result is the valid treap of the sequence without position i. Any other index leaves the sequence unchanged. |
| Treaps.InsertBeforeZeroSizeLeaf | PersistenceTreap/treap.h:152-168 | Inserting in front of a size-0 leaf yields the new value followed by the leaf's value. |
| Treaps.RemoveLastThenInsertAsWritten | PersistenceTreap/treap.h:170-194 | As written, removing the only element leaves a size-0 node holding 0, and inserting y afterwards gives [y, 0]. |
| Treaps.RemoveLastThenInsert | PersistenceTreap/treap.h:170-194 | With the corrected empty merge, removing the only element gives the empty treap, and inserting y afterwards gives [y]. |
| Treaps.SegmentOfValid | PersistenceTreap/treap.h:199-204 | The two splits of GetSum isolate a valid treap for E[a..b]. |
| Treaps.GetSumIsRangeSum | PersistenceTreap/treap.h:196-222 | The segment is E[a..b] with b = clamp(r+1) and a = clamp(l). `new_R` is non-null exactly when a < b, and then GetSum is the sum of E[a..b]. |
| Treaps.GetSumInRange | PersistenceTreap/treap.h:196-222 | For 0 ≤ l ≤ r < size, GetSum is the sum of elements l..r inclusive and never reads a null node. |
| Treaps.Search | PersistenceTreap/treap.h:224-234 | It prints the values of the subtree in order. |
| Treaps.Printed | PersistenceTreap/treap.h:229 | One output item per value, in order. |
| Treaps.PrintSegment | PersistenceTreap/treap.h:236-260 | It prints exactly the values of the segment l..r, in order. |
| TreapHeaps.PTHeap.constructor | PersistenceTreap/PersistentTreapHeap.h:6 | The default history has no version. |
| TreapHeaps.PTHeap.Init | PersistenceTreap/PersistentTreapHeap.h:8-10 | The history starts with exactly the given version. |
| TreapHeaps.PTHeap.InsertToTreap | PersistenceTreap/PersistentTreapHeap.h:12-14 | It pushes exactly one version, Insert of the latest, and leaves every earlier version unchanged. It keeps all versions valid, and the new version is the latest sequence with val inserted. |
| TreapHeaps.PTHeap.RemoveFromTreap | PersistenceTreap/PersistentTreapHeap.h:16-18 | It pushes exactly one version, Remove of the latest, and leaves earlier versions unchanged. It keeps all versions valid, and the new version drops the element at index. |
| TreapHeaps.PTHeap.GetSumFromTreap | PersistenceTreap/PersistentTreapHeap.h:20-22 | It returns GetSum of the latest version and pushes nothing. A valid history is left as it was. An in-range query returns the sum of elements l..r. |
| TreapHeaps.PTHeap.PrintTreapSegment | PersistenceTreap/PersistentTreapHeap.h:24-28 | It prints the latest version's elements l..r in order and changes no version. |
| TreapHeaps.PTHeap.GetSize | PersistenceTreap/PersistentTreapHeap.h:30-32 | For a valid latest version, it is that version's number of elements. |
| TreapHeaps.ValidityGivesSize | PersistenceTreap/PersistentTreapHeap.h:30-32 | The stored size of a valid treap is its number of elements. |
| TreapHeaps.PTHeap.CancelOperations | PersistenceTreap/PersistentTreapHeap.h:34-39 | It pops exactly max(count, 0) versions, so the version from before them is current again. It needs at most as many as there are. |

## Left out

- `rpForest/main.cpp` is not part of this model. It is an interactive command-line driver and test harness.
- Concurrency: `std::async`, `std::future` and `std::mutex`. The threaded constructor runs its `MakeTrees` calls one after another. All it keeps of the scheduling is the thread-count arithmetic.
- The `double` `* 0.01` leaf size: it is modelled as max(2, ⌊\|U\|/100⌋), which is what the truncating conversion gives.
- `std::sqrt` and the `double` result of `Distance`: the model returns the squared integer distance, which orders points the same way. Rounding of doubles is not modelled.
- Randomness: `rand()` and `random_device`/`mt19937` are finite streams of draws passed in as parameters. When a build runs out of draws it fails with `RandomExhausted`, an error the C++ code does not have. The witness retry loop, which ends only with probability 1, retries only as long as draws remain. In the treap, an exhausted stream draws 0.
- `std::sort` is not stable. The model sorts with one fixed stable sort, so the order among equally distant candidates is one the source may not produce. `RpForests.RankCandidates` and `RpForests.RpForest.KnnForPoint` promise exactly that order (`Ranked`), so for candidates at equal distance, which ones survive the cut to k and in what order is the model's choice, not the source's. What holds for every order `std::sort` may produce is stated separately: `RankedFacts`, `RankedByDistance` and `NearestFirst`.
- Byte-level stream mechanics: each `int` or `bool` written with `ofstream::write` is one token, and NumericType is fixed to `int`. A short or malformed file is `DecodeError`. The C++ code reads garbage or, in `ReadNodeFrom` at end of file, leaves the node's defaults; the model does not follow that.
- Integer widths in general are not modelled:
  - `int` and `long long` overflow, and the `size_t`-to-`int` conversion of sizes in the layout;
  - the squared-distance sum and the treap sums, which are unbounded integers.
  
  The one exception is the variance score: it divides by the unsigned `W.size()` as the source does (`SizeDiv`, `Wrap32`).
- Undefined behaviour becomes a precondition:
  - `RpTrees.RpTree.Copy` and `RpTrees.RpTree.FindKnn` need the root to exist;
  - `RpForests.RpForest.Threaded` and `RpForests.RpForest.ThreadedBalanced` need how_much ≠ 0 when thread_count > 0, because otherwise the reduction loop divides by zero. A negative how_much is not undefined: `forest.reserve` throws `std::length_error`, which the model returns as `LengthError`;
  - queries (`RpTreeNodes.TreeDownhill`, `RpTrees.RpTree.FindKnn`, `RpForests.RpForest.KnnForPoint`, `RpForests.RpForest.CollectCandidates`) need the query to have every coordinate the descent reads (`CanDescend`, `Queryable`), because `point.at(projection_for_node)` (rpTreeNode.h:117) is the unchecked `coordinates[pos]` (pointForRpTree.h:65-67). For a built tree, every query of the tree's dimension qualifies (`BuiltTreeIsQueryable`);
  - `RpForests.RpForest.WriteForestTo` needs at least how_much trees;
  - `TreapHeaps.PTHeap` operations need a version to exist, since `heap.back()` on an empty vector is undefined;
  - `TreapHeaps.PTHeap.CancelOperations` needs count ≤ the number of versions;
  - `Treaps.GetSum` and `Treaps.PrintSegment` need a non-empty segment, because `new_R` would be null;
  - `Treaps.Search` needs a non-null root.
- `Treaps.MergeAsWritten` requires every stored size to be ≥ 1, because `rand() % (l + r)` divides by zero when both roots store size 0. The size-0 placeholder is only ever a root, and Split replaces it by a size-1 node before any merge sees it (`SplitSized`).
- Memory management is left out: destructors, `DeleteNode`, `link`/`addLink`/`Del`/`DelNode`, and the `Del` calls in `CancelOperations`. Nodes are values, and sharing between versions is implicit.
- The treap's lazy `add` field is never set to anything but 0, so it is left out. `update` with add = 0 is `Treaps.Update`.
- The treap node constructors `PersistentTreap(cur)` and `PersistentTreap(x)` are not separate members. The copy is the value itself, and `PersistentTreap(x)` is the node `Node(Nil, x, Nil, 1, x)` inside `Treaps.Insert`.
- `TreapHeaps.PTHeap.GetSumFromTreap`: the source's `update(root)` changes the latest root in place. The model replaces the latest version by `Update` of it, which is the same node whenever the version is valid.
- The printing of `Search` is one `Num` token per value. The separating space and the text formatting of `operator<<` are left out.
- The corrected `Treaps.Merge` and `Treaps.Remove` are what `Treaps.Insert` and `TreapHeaps.PTHeap` use. The as-written versions appear only in the findings below.
- TreapHeaps.PTHeap.RemoveFromTreap: pushes the corrected `Treaps.Remove`, not the source's remove. They differ only when the removal empties the version, that is, when it removes the only element or removes from an empty version. There the source pushes the size-0 placeholder `Node(Nil, 0, Nil, 0, 0)`, which is not valid, so `AllValid` and the "drops the element at index" clause are not promised of the source in that case. `Treaps.RemoveLastThenInsertAsWritten` shows the consequence.

## Findings

| source | as written | input that shows it | evidently intended | confidence | as-written member | corrected member |
|---|---|---|---|---|---|---|
| rpForest/rpForestlib/rpForest.h:156-166 | each of the t' threads builds how_much / t' trees, and `how_much_trees_in_forest` records how_much | how_much = 5, thread_count = 2: two threads build 2 trees each, so the forest has 4 trees and records 5, and `WriteForestTo` then reads `forest[4]` past the end | the forest holds as many trees as it records, with the remainder shared out among the threads | not executed | RpForests.RpForest.Threaded, RpForests.ThreadedForestIsShort | RpForests.RpForest.ThreadedBalanced |
| PersistenceTreap/treap.h:127-131 | `Merge(nullptr, nullptr)` returns `new PersistentTreap(nullptr)`, a node of size 0 holding value 0, which `update` later counts as a real element (line 73) | remove the only element of a one-element treap, then insert y at 0: the sequence becomes [y, 0] instead of [y] | merging two empty treaps gives the empty treap | not executed | Treaps.RemoveAsWritten, Treaps.RemoveLastThenInsertAsWritten | Treaps.Remove, Treaps.RemoveLastThenInsert |
