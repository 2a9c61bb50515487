# Branch-and-bound TSP solver: a verified model

This project models the core of a travelling-salesman solver written in C#.
The solver has two parts:

- a greedy nearest-neighbour solver that keeps the cheapest greedy tour over
  all start cities as the best solution so far (the "bssf");
- a branch-and-bound solver. It starts from that greedy tour and explores
  partial tours ("nodes"). Each node carries a reduced cost matrix and a
  lower bound.

The model covers these entities:

- **Costs** (`Costs`) are `double`s that may be +infinity. They are modelled
  as `Cost = Fin(real) | Inf`. `double.MaxValue` is the exact real `MaxValue`,
  which is finite.
- **Reduction** (`Reduction`, `InPlace`) subtracts from each row, and then
  from each column, an amount chosen by one of three rules:
  - Matrix.Reduce's rule: the line minimum, unless it is +infinity;
  - the root calcLowerBound's rule: the running minimum from
    `double.MaxValue`, unless the line holds a 0;
  - the child calcLowerBound's rule: the last entry, when it lowers that
    running minimum.

  Each rule is a specification function, and array methods whose loops
  follow the C# code are proved against it.
- **Matrix** (`CostMatrix`) is a value that is never changed in place.
  Reduce and FollowRoute fill a fresh two-dimensional array and are proved
  equal to their specification functions.
- **BBPriority** (`BBPriorityOrder`) is the depth-then-cost priority and its
  comparison.
- **Element** (`QueueElements`) is the item/priority pair of
  AbstractPriorityQueue, together with the functional sorting and filtering
  that specify DeleteElementsHigherThan.
- **HeapPriorityQueue** (`HeapQueue`) is a class over an array of elements
  plus a dictionary from items to slots. Its contracts state:
  - the heap order and the index map as a class invariant;
  - every operation's effect on the multiset of contents;
  - growth and shrinking of the array;
  - which index entries each operation writes, and when the index drops its -1 entries.
- **PQueue and BBNode** (`NodeQueue`) form the 1-indexed binary heap of
  branch-and-bound nodes in ProblemAndSolver.cs.
- **Tours** (`Tours`) cover:
  - route costs (costOfRoute);
  - the cost table (GetCosts);
  - the nearest-neighbour walk.
- **ProblemAndSolver** (`LowerBounds`, `BranchAndBound`) covers:
  - makeRootNode, makeChildNode and both calcLowerBound overloads;
  - greedySolveProblem and bBSolveProblem, as a class whose field is the
    bssf.

## Model

| member | source | states |
|---|---|---|
| `Costs.Sub` | WindowsFormsApplication1/Matrix.cs:67-70 | subtracting a finite amount keeps +infinity infinite and a finite cost finite |
| `Costs.CompareCosts` | WindowsFormsApplication1/BBPriority.cs:47 | double.CompareTo on costs: -1 exactly when the first is lower, 1 exactly when it is higher, 0 exactly when they are equal |
| `Costs.LtStrictTotal` | WindowsFormsApplication1/BBPriority.cs:47 | the order on costs, with +infinity above every finite cost, is irreflexive, transitive and total |
| `Costs.LeChains` | WindowsFormsApplication1/ProblemAndSolver.cs:436-440 | `<=` and `<` on costs chain through one another |
| `Reduction.ScanMin` | WindowsFormsApplication1/Matrix.cs:52-61 | the running minimum is at most its start and at most every entry, and it is one of them |
| `Reduction.MinRuleAmount` | WindowsFormsApplication1/Matrix.cs:49-72 | Reduce skips a line exactly when all of its entries are +infinity; otherwise it subtracts a finite entry that is at most every entry |
| `Reduction.ChildRuleAmount` | WindowsFormsApplication1/ProblemAndSolver.cs:739-764 | when the child rule subtracts something, it is the line's last entry, that entry is a minimum of the line, and the line holds no 0 |
| `Reduction.RootRuleAmount` | WindowsFormsApplication1/ProblemAndSolver.cs:802-826 | the root rule subtracts nothing exactly when the line holds a 0; otherwise it subtracts the least entry, or double.MaxValue when every entry is +infinity |
| `Reduction.SubtractMinimum` | WindowsFormsApplication1/Matrix.cs:63-71 | subtracting a line's finite minimum leaves a 0 in the line and no negative entry |
| `Reduction.MinRuleLine` | WindowsFormsApplication1/Matrix.cs:49-72 | after Reduce's rule, a non-negative line holds a 0 or is all +infinity, and stays non-negative |
| `Reduction.MinRuleOfReducedLine` | WindowsFormsApplication1/Matrix.cs:49-72 | on a non-negative line that holds a 0, Reduce's rule subtracts 0; on an all-infinite line it subtracts nothing |
| `Reduction.TotalOfZeros` | WindowsFormsApplication1/Matrix.cs:100-101 | amounts that are all nothing or 0 add nothing to the bound |
| `Reduction.TotalNonNeg` | WindowsFormsApplication1/Matrix.cs:100-101 | non-negative amounts add up to a non-negative total |
| `Reduction.ReducedKeepsInfinity` | WindowsFormsApplication1/Matrix.cs:44-102 | under every rule, a cell is +infinity after the reduction exactly when it was before |
| `Reduction.MinRuleRowPass` | WindowsFormsApplication1/Matrix.cs:49-72 | on a non-negative matrix, the row pass leaves every row holding a 0 or all +infinity, and every entry non-negative |
| `Reduction.MinRuleColPassColumns` | WindowsFormsApplication1/Matrix.cs:74-98 | on a non-negative matrix, the column pass leaves every column holding a 0 or all +infinity, and every entry non-negative |
| `Reduction.MinRuleColPassRows` | WindowsFormsApplication1/Matrix.cs:74-98 | the column pass keeps each row that held a 0 or was all +infinity in that state |
| `Reduction.MinRuleReducesEveryLine` | WindowsFormsApplication1/Matrix.cs:44-102 | Reduce leaves a non-negative matrix in which every row and every column holds a 0 or is all +infinity |
| `Reduction.MinRuleOnReduced` | WindowsFormsApplication1/Matrix.cs:44-102 | on a matrix already reduced in that sense, both passes change nothing and subtract 0 |
| `Reduction.MinRuleIdempotent` | WindowsFormsApplication1/Matrix.cs:44-102 | reducing a reduced matrix changes nothing and adds 0 to the bound |
| `Reduction.MinRuleSubtractsNonNeg` | WindowsFormsApplication1/Matrix.cs:100-101 | on a non-negative matrix, Reduce never lowers the bound |
| `Reduction.ChildRuleKeepsNonNeg` | WindowsFormsApplication1/ProblemAndSolver.cs:739-792 | on a non-negative matrix, the child rule keeps every entry non-negative and never lowers the bound |
| `Reduction.ChildRuleIsPartial` | WindowsFormsApplication1/ProblemAndSolver.cs:745-762 | the child rule may leave a line without a 0: on [1, 2] it subtracts nothing, where Reduce's rule subtracts 1 |
| `Reduction.RootRuleOnAllInfinite` | WindowsFormsApplication1/ProblemAndSolver.cs:802-852 | on a 1x1 matrix holding +infinity, the root rule subtracts double.MaxValue from the row and again from the column, so the exact bound is 2 * double.MaxValue (the double sum in the code is +infinity), and the matrix is unchanged |
| `InPlace.SnapshotIs` | WindowsFormsApplication1/Matrix.cs:44-102 | an array whose cells equal a grid's cells has that grid as its snapshot |
| `InPlace.LowestScan` | WindowsFormsApplication1/Matrix.cs:51-61 | Reduce's scan for the lowest entry, starting from the first entry, computes Reduce's amount |
| `InPlace.RootScan` | WindowsFormsApplication1/ProblemAndSolver.cs:805-824 | the root scan, which stops at the first 0, computes the root rule's amount |
| `InPlace.ChildScan` | WindowsFormsApplication1/ProblemAndSolver.cs:742-762 | the child scan, which stops at the first 0 and subtracts only at the last entry, computes the child rule's amount |
| `InPlace.LineAmount` | WindowsFormsApplication1/ProblemAndSolver.cs:739-764 | the scan for a rule computes that rule's amount |
| `InPlace.SubtractFromRow` | WindowsFormsApplication1/Matrix.cs:67-70 | subtracts the amount from every cell of one row and changes no other cell |
| `InPlace.SubtractFromColumn` | WindowsFormsApplication1/Matrix.cs:93-96 | subtracts the amount from every cell of one column and changes no other cell |
| `InPlace.ReduceRowAt` | WindowsFormsApplication1/Matrix.cs:49-72 | reducing row i leaves that row reduced by its amount and every other row as it was |
| `InPlace.ReduceColumnAt` | WindowsFormsApplication1/Matrix.cs:74-98 | reducing column j leaves that column reduced by its amount and every other column as it was |
| `InPlace.RowStep` | WindowsFormsApplication1/Matrix.cs:49-72 | one turn of the row loop returns that row's amount and extends the reduced prefix by one row |
| `InPlace.ColumnStep` | WindowsFormsApplication1/Matrix.cs:74-98 | one turn of the column loop returns that column's amount and extends the reduced prefix by one column |
| `InPlace.ReduceRows` | WindowsFormsApplication1/Matrix.cs:49-72 | the row loop turns the array into the row pass of its old contents and returns the sum of the row amounts |
| `InPlace.ReduceColumns` | WindowsFormsApplication1/Matrix.cs:74-98 | the column loop turns the array into the column pass of its old contents and returns the sum of the column amounts |
| `InPlace.ReduceInPlace` | WindowsFormsApplication1/Matrix.cs:44-102 | both loops leave the array reduced under the rule and return the total subtracted |
| `CostMatrix.Matrix.Reduce` | WindowsFormsApplication1/Matrix.cs:44-102 | returns the reduced matrix: the same cities and visit count, the reduced costs, and the bound raised by the total subtracted |
| `CostMatrix.Matrix.FollowRoute` | WindowsFormsApplication1/Matrix.cs:110-126 | returns the reduction of the costs with row i and column j blocked, and (j, 0) blocked while more than two cities remain; the visit count goes up by one |
| `CostMatrix.BlockEdge` | WindowsFormsApplication1/Matrix.cs:114-123 | sets row i, column j and (when asked) the cell (j, 0) to +infinity and leaves every other cell as it was |
| `CostMatrix.Create` | WindowsFormsApplication1/Matrix.cs:12-27 | fails with ArgumentOutOfRange exactly when the array is not cities by cities; otherwise it holds the given costs as a snapshot, keeps the bound and has visited no city |
| `CostMatrix.ReduceIdempotent` | WindowsFormsApplication1/Matrix.cs:44-102 | reducing a reduced matrix changes neither its costs nor its bound |
| `CostMatrix.ReduceShape` | WindowsFormsApplication1/Matrix.cs:44-102 | on non-negative costs, Reduce leaves every row and column holding a 0 or all +infinity, with +infinity exactly where it was |
| `CostMatrix.ReduceNeverLowersBound` | WindowsFormsApplication1/Matrix.cs:100-101 | on non-negative costs, Reduce never lowers the bound |
| `CostMatrix.FollowRouteBlocks` | WindowsFormsApplication1/Matrix.cs:114-125 | after FollowRoute(i, j), row i and column j are all +infinity, and so is (j, 0) while more than two cities remain |
| `CostMatrix.FollowRouteNeverLowersBound` | WindowsFormsApplication1/Matrix.cs:110-126 | on non-negative costs, FollowRoute never lowers the bound |
| `CostMatrix.FollowRouteOmitsEdgeCost` | WindowsFormsApplication1/Matrix.cs:110-126 | FollowRoute does not add the followed edge's cost: following an edge of reduced cost 7 leaves a bound of 10 at 10 |
| `BBPriorityOrder.CompareTo` | WindowsFormsApplication1/BBPriority.cs:24-48 | when neither depth is DEPTH_NONE and the depths differ by more than two, the deeper priority compares lower; otherwise, and always when a depth is DEPTH_NONE, only the costs decide |
| `BBPriorityOrder.DeeperWins` | WindowsFormsApplication1/BBPriority.cs:30-43 | a priority more than two levels deeper compares lower from both sides |
| `BBPriorityOrder.CostDecides` | WindowsFormsApplication1/BBPriority.cs:47 | within two levels, the comparison is exactly the comparison of the costs |
| `BBPriorityOrder.Antisymmetric` | WindowsFormsApplication1/BBPriority.cs:24-48 | swapping the arguments negates the result, and a priority compares equal to itself |
| `BBPriorityOrder.GapOfTwoComparesCosts` | WindowsFormsApplication1/BBPriority.cs:30-47 | (1, 10) compares lower than (3, 50) because a gap of two still lets the costs decide, but a gap of three lets depth decide |
| `BBPriorityOrder.NotTransitive` | WindowsFormsApplication1/BBPriority.cs:24-48 | three priorities each compare lower than the next, around a cycle |
| `BBPriorityOrder.NotAComparator` | WindowsFormsApplication1/BBPriority.cs:24-48 | the comparison is not a total preorder, so a heap ordered by it need not serve a least element |
| `QueueElements.CompareTo` | WindowsFormsApplication1/AbstractPriorityQueue.cs:44-46 | elements compare as their priorities do |
| `QueueElements.CompareToIgnoresItems` | WindowsFormsApplication1/AbstractPriorityQueue.cs:44-46 | the items play no part in the comparison |
| `QueueElements.KeptBelow` | WindowsFormsApplication1/HeapPriorityQueue.cs:213-224 | the copy loop keeps at most as many elements as it was given |
| `QueueElements.KeptBelowExactly` | WindowsFormsApplication1/HeapPriorityQueue.cs:213-224 | the copy loop keeps exactly the elements whose priority is below the given one, each as often as it occurred |
| `QueueElements.KeptBelowDistinct` | WindowsFormsApplication1/HeapPriorityQueue.cs:213-224 | elements with distinct items still have distinct items after the copy |
| `QueueElements.InsertSorted` | WindowsFormsApplication1/HeapPriorityQueue.cs:226 | inserting one element adds exactly that element to the multiset |
| `QueueElements.SortByPriority` | WindowsFormsApplication1/HeapPriorityQueue.cs:226 | sorting is a permutation |
| `QueueElements.Transitive` | WindowsFormsApplication1/AbstractPriorityQueue.cs:44-46 | a comparator that is a total preorder chains `<= 0` |
| `QueueElements.Flip` | WindowsFormsApplication1/AbstractPriorityQueue.cs:44-46 | such a comparator flips sign when its arguments are swapped and is 0 on equal arguments |
| `QueueElements.InsertSortedSorted` | WindowsFormsApplication1/HeapPriorityQueue.cs:226 | inserting into a sorted sequence keeps it sorted |
| `QueueElements.InsertFrontSorted` | WindowsFormsApplication1/HeapPriorityQueue.cs:226 | an element no higher than the head of a sorted sequence may go in front of it |
| `QueueElements.InsertBehindSorted` | WindowsFormsApplication1/HeapPriorityQueue.cs:226 | an element higher than the head may be inserted behind it and the result stays sorted |
| `QueueElements.SortByPrioritySorted` | WindowsFormsApplication1/HeapPriorityQueue.cs:226 | the sort's result is sorted by priority |
| `QueueElements.SortByPriorityDistinct` | WindowsFormsApplication1/HeapPriorityQueue.cs:226-231 | sorting keeps items distinct, so the rebuilt index maps each item to one slot |
| `QueueElements.InsertSortedDistinct` | WindowsFormsApplication1/HeapPriorityQueue.cs:226 | inserting an element with a new item keeps items distinct |
| `QueueElements.Exchanged` | WindowsFormsApplication1/HeapPriorityQueue.cs:154-157 | exchanging two slots moves each one's element to the other and changes no other slot; PQueue's swap (WindowsFormsApplication1/ProblemAndSolver.cs:938-940) is the same exchange |
| `HeapQueue.IndexedDistinct` | WindowsFormsApplication1/HeapPriorityQueue.cs:21 | a slot index kept for every item makes the live items distinct |
| `HeapQueue.RootBelow` | WindowsFormsApplication1/HeapPriorityQueue.cs:33-37 | in a heap-ordered prefix, the root's priority is at most that of every slot |
| `HeapQueue.RootIsLowest` | WindowsFormsApplication1/HeapPriorityQueue.cs:33-37 | the root's priority is at most that of every element in the heap |
| `HeapQueue.SwapIndexed` | WindowsFormsApplication1/HeapPriorityQueue.cs:154-161 | swapping two slots and updating both indices keeps the index map exact |
| `HeapQueue.SwapUpStep` | WindowsFormsApplication1/HeapPriorityQueue.cs:146-165 | swapping an element with a higher parent moves the single break of heap order one level up |
| `HeapQueue.SwapDownStep` | WindowsFormsApplication1/HeapPriorityQueue.cs:71-91 | swapping an element with its lowest child moves the single break of heap order one level down |
| `HeapQueue.DownHeapDone` | WindowsFormsApplication1/HeapPriorityQueue.cs:71-91 | when no child is lower than the element, the whole prefix is heap-ordered |
| `HeapQueue.ChildrenOf` | WindowsFormsApplication1/HeapPriorityQueue.cs:98-117 | slot c has parent `index` exactly when c is 2*index+1 or 2*index+2 |
| `HeapQueue.SortedSlotsHeap` | WindowsFormsApplication1/HeapPriorityQueue.cs:226-237 | a prefix sorted by priority is heap-ordered, so the sorted array DeleteElementsHigherThan leaves is a valid heap |
| `HeapQueue.HeapPriorityQueue.constructor` | WindowsFormsApplication1/HeapPriorityQueue.cs:23-26 | an empty queue over 20 slots with an empty index |
| `HeapQueue.HeapPriorityQueue.WithSize` | WindowsFormsApplication1/HeapPriorityQueue.cs:28-31 | an empty queue over the suggested number of slots |
| `HeapQueue.HeapPriorityQueue.Size` | WindowsFormsApplication1/HeapPriorityQueue.cs:11-14 | the number of elements queued |
| `HeapQueue.HeapPriorityQueue.IsEmpty` | WindowsFormsApplication1/HeapPriorityQueue.cs:167-170 | true exactly when nothing is queued |
| `HeapQueue.HeapPriorityQueue.GetPriority` | WindowsFormsApplication1/AbstractPriorityQueue.cs:31-34 | succeeds exactly for a queued item and yields its priority; fails with KeyNotFound exactly for an item absent from the index, whether never inserted or dropped when the index was cleaned, cleared or rebuilt (the queue's own GetElement is at HeapPriorityQueue.cs:179-182) |
| `HeapQueue.HeapPriorityQueue.GetLowestChildOfIndex` | WindowsFormsApplication1/HeapPriorityQueue.cs:107-117 | the left child unless a right child exists with a priority no higher; the result is a child whose priority is at most every child's |
| `HeapQueue.HeapPriorityQueue.LowestChildIsLowest` | WindowsFormsApplication1/HeapPriorityQueue.cs:107-117 | a slot's only children are its left and right ones, and a right child that does not lose is no higher than the left |
| `HeapQueue.HeapPriorityQueue.Swap` | WindowsFormsApplication1/HeapPriorityQueue.cs:154-161 | exchanges two slots, re-records exactly the two moved items at their new slots and keeps the contents; every other index entry, -1 ones included, is unchanged |
| `HeapQueue.HeapPriorityQueue.BubbleIndexUp` | WindowsFormsApplication1/HeapPriorityQueue.cs:146-165 | restores heap order and the index over a prefix whose one break sits at `index`, keeping its contents; the index records the same items and the same ones at -1 |
| `HeapQueue.HeapPriorityQueue.BubbleIndexDown` | WindowsFormsApplication1/HeapPriorityQueue.cs:71-91 | restores heap order and the index when the element at `index` may be higher than its children, keeping the contents; the index records the same items and the same ones at -1 |
| `HeapQueue.HeapPriorityQueue.Insert` | WindowsFormsApplication1/HeapPriorityQueue.cs:123-139 | adds exactly the element, after which GetPriority yields its priority; doubles the array when it fills up; the index gains exactly the new item and, when it then holds more than 1.2 entries per element, loses exactly its -1 entries; with no free slot it changes nothing and reports failure |
| `HeapQueue.HeapPriorityQueue.AppendElement` | WindowsFormsApplication1/HeapPriorityQueue.cs:125-128 | writing into the first free slot and bubbling it up adds exactly that element, and the index gains exactly its item with its other records unchanged |
| `HeapQueue.HeapPriorityQueue.AppendKeepsShape` | WindowsFormsApplication1/HeapPriorityQueue.cs:125-127 | a new last element breaks heap order at most at its own slot, and the index extended with it is exact |
| `HeapQueue.HeapPriorityQueue.InContentsIsLive` | WindowsFormsApplication1/HeapPriorityQueue.cs:179-182 | a queued element's item is indexed, and the index points to that element |
| `HeapQueue.HeapPriorityQueue.GetLowest` | WindowsFormsApplication1/HeapPriorityQueue.cs:33-64 | removes and returns an element whose priority is at most every queued one; the item is no longer queued, its index is -1, and the array halves when less than half full; when the index then holds more than 1.2 entries per element it loses exactly its -1 entries, otherwise only the taken item's record changes |
| `HeapQueue.HeapPriorityQueue.TakeRoot` | WindowsFormsApplication1/HeapPriorityQueue.cs:37-52 | moving the last element to the root, marking the root's item -1 and bubbling down removes exactly the lowest element; the root's item is recorded at -1 and no other record gains or loses -1 |
| `HeapQueue.HeapPriorityQueue.RemovedRootRecords` | WindowsFormsApplication1/HeapPriorityQueue.cs:45-48 | the two index writes change which items are at -1 only for the root's item |
| `HeapQueue.HeapPriorityQueue.RemovedRoot` | WindowsFormsApplication1/HeapPriorityQueue.cs:41-48 | after the last element replaces the root, the index is exact, heap order breaks at most at the root, and exactly the root left |
| `HeapQueue.HeapPriorityQueue.RemovedRootIndexed` | WindowsFormsApplication1/HeapPriorityQueue.cs:45-48 | updating the moved element's index and marking the old root -1 keeps the index exact |
| `HeapQueue.HeapPriorityQueue.RemovedRootContents` | WindowsFormsApplication1/HeapPriorityQueue.cs:41-43 | the remaining contents are the old ones less the root, and none of them has the root's item |
| `HeapQueue.HeapPriorityQueue.AbsentItemNotLive` | WindowsFormsApplication1/HeapPriorityQueue.cs:48 | an item with no queued element is not live under an exact index |
| `HeapQueue.HeapPriorityQueue.GrowArray` | WindowsFormsApplication1/HeapPriorityQueue.cs:184-189 | a fresh array of twice the length, with the old slots copied in front |
| `HeapQueue.HeapPriorityQueue.ShrinkArray` | WindowsFormsApplication1/HeapPriorityQueue.cs:191-196 | a fresh array of half the length, holding the old array's first half |
| `HeapQueue.HeapPriorityQueue.CleanIndices` | WindowsFormsApplication1/HeapPriorityQueue.cs:198-209 | the index keeps exactly its entries that are not -1 |
| `HeapQueue.CleanedSameRecords` | WindowsFormsApplication1/HeapPriorityQueue.cs:135-138 | cleaning two indexes with the same records gives indexes with the same records, and the size test sees the same count |
| `HeapQueue.HeapPriorityQueue.Clear` | WindowsFormsApplication1/HeapPriorityQueue.cs:172-177 | empties the queue and the index over a fresh array of the same length |
| `HeapQueue.HeapPriorityQueue.CopyBelow` | WindowsFormsApplication1/HeapPriorityQueue.cs:213-224 | the copy loop fills a fresh array of `size` slots with exactly the kept elements, in order |
| `HeapQueue.HeapPriorityQueue.IndexSlots` | WindowsFormsApplication1/HeapPriorityQueue.cs:228-231 | the rebuilt index maps each item to its slot and holds no -1 |
| `HeapQueue.HeapPriorityQueue.SortSlots` | WindowsFormsApplication1/HeapPriorityQueue.cs:226 | the array's prefix becomes its sorted permutation |
| `HeapQueue.HeapPriorityQueue.DeleteElementsHigherThan` | WindowsFormsApplication1/HeapPriorityQueue.cs:211-238 | keeps exactly the elements below the priority, sorted, in an array of the old size; returns how many went |
| `NodeQueue.CompareTo` | WindowsFormsApplication1/ProblemAndSolver.cs:651-666 | -1 exactly when the node comes first (a longer path, or the same length and a bound no higher); never 0 |
| `NodeQueue.BeforeIsTotalPreorder` | WindowsFormsApplication1/ProblemAndSolver.cs:651-666 | the order that CompareTo answers -1 for is reflexive, total and transitive |
| `NodeQueue.TiesCompareLowerBothWays` | WindowsFormsApplication1/ProblemAndSolver.cs:651-666 | two nodes of equal length and bound each compare lower than the other |
| `NodeQueue.ChildrenOf` | WindowsFormsApplication1/ProblemAndSolver.cs:922-933 | in the 1-indexed heap, the children of slot i are 2i and 2i+1 |
| `NodeQueue.LastToFirst` | WindowsFormsApplication1/ProblemAndSolver.cs:913-916 | moving the last slot to the first keeps every node but the old first |
| `NodeQueue.Rotated` | WindowsFormsApplication1/ProblemAndSolver.cs:913-916 | a sequence whose last element replaced its first holds the old multiset less the first |
| `NodeQueue.SwapEnds` | WindowsFormsApplication1/ProblemAndSolver.cs:913-916 | removing the first element and moving the last one to the front keeps every element but the first: the multiset loses exactly the first element |
| `NodeQueue.FirstBelow` | WindowsFormsApplication1/ProblemAndSolver.cs:874-877 | in a heap, the node in slot 1 comes before the node in every slot |
| `NodeQueue.FirstIsFirst` | WindowsFormsApplication1/ProblemAndSolver.cs:910-947 | the node in slot 1 comes before every queued node |
| `NodeQueue.UpStep` | WindowsFormsApplication1/ProblemAndSolver.cs:983-991 | swapping a node with its parent, when it comes strictly first, moves the single break one level up |
| `NodeQueue.UpDone` | WindowsFormsApplication1/ProblemAndSolver.cs:983-991 | when the parent does not come strictly after the node, the heap is whole |
| `NodeQueue.DownSwap` | WindowsFormsApplication1/ProblemAndSolver.cs:935-943 | swapping a node with its first child, when that child comes strictly first, moves the single break one level down |
| `NodeQueue.DownKeep` | WindowsFormsApplication1/ProblemAndSolver.cs:935-943 | when the node does not come after its first child, the heap is whole |
| `NodeQueue.DownDone` | WindowsFormsApplication1/ProblemAndSolver.cs:919-926 | a node without children leaves the heap whole |
| `NodeQueue.PickFirstChild` | WindowsFormsApplication1/ProblemAndSolver.cs:928-933 | the chosen child comes before its sibling |
| `NodeQueue.PQueue.constructor` | WindowsFormsApplication1/ProblemAndSolver.cs:863 | a queue with no array and every count 0 |
| `NodeQueue.PQueue.IsEmpty` | WindowsFormsApplication1/ProblemAndSolver.cs:869-872 | true exactly when nothing is queued |
| `NodeQueue.PQueue.GetMinLB` | WindowsFormsApplication1/ProblemAndSolver.cs:874-877 | the bound of a queued node that comes before every queued node |
| `NodeQueue.PQueue.GetSize` | WindowsFormsApplication1/ProblemAndSolver.cs:882-885 | the number of queued nodes |
| `NodeQueue.PQueue.GetMaxNumOfItems` | WindowsFormsApplication1/ProblemAndSolver.cs:952-955 | at least the number of queued nodes |
| `NodeQueue.PQueue.MakeQueue` | WindowsFormsApplication1/ProblemAndSolver.cs:892-901 | a fresh array of 1000000 slots, the given capacity and an empty queue |
| `NodeQueue.PQueue.Exchange` | WindowsFormsApplication1/ProblemAndSolver.cs:938-940 | exchanges two slots and keeps the queued nodes |
| `NodeQueue.PQueue.SwapKeepsBag` | WindowsFormsApplication1/ProblemAndSolver.cs:938-940 | exchanging two slots inside the queue keeps the queued nodes |
| `NodeQueue.PQueue.Insert` | WindowsFormsApplication1/ProblemAndSolver.cs:962-992 | adds exactly the node, keeps heap order, and raises the high-water mark when the count passes it |
| `NodeQueue.PQueue.Place` | WindowsFormsApplication1/ProblemAndSolver.cs:965-978 | the count goes up by one and the node goes into the new last slot |
| `NodeQueue.PQueue.SiftUp` | WindowsFormsApplication1/ProblemAndSolver.cs:982-991 | restores heap order from a single break at i0, keeping the queued nodes |
| `NodeQueue.PQueue.AppendedBag` | WindowsFormsApplication1/ProblemAndSolver.cs:965-978 | the queued nodes are the old ones plus the new node |
| `NodeQueue.PQueue.AppendedUpHeap` | WindowsFormsApplication1/ProblemAndSolver.cs:978-983 | a new last node breaks heap order at most at its own slot |
| `NodeQueue.PQueue.DeleteMin` | WindowsFormsApplication1/ProblemAndSolver.cs:910-947 | removes and returns a node that comes before every queued node, keeping the rest in heap order |
| `NodeQueue.PQueue.TakeFirst` | WindowsFormsApplication1/ProblemAndSolver.cs:913-916 | returns slot 1, moves the last slot into it and lowers the count |
| `NodeQueue.PQueue.SiftDown` | WindowsFormsApplication1/ProblemAndSolver.cs:918-944 | restores heap order from a single break at slot 1, keeping the queued nodes |
| `NodeQueue.PQueue.SiftStep` | WindowsFormsApplication1/ProblemAndSolver.cs:921-943 | one swap with the first child moves the break strictly down, keeping the queued nodes |
| `NodeQueue.PQueue.RemovedFirst` | WindowsFormsApplication1/ProblemAndSolver.cs:913-916 | after the last node replaces the first, heap order breaks at most at slot 1 and exactly the first node left |
| `NodeQueue.PQueue.RemovedFirstBag` | WindowsFormsApplication1/ProblemAndSolver.cs:913-916 | after the last node replaces the first, the queued nodes are the old ones less the first |
| `Tours.CostOfRoute` | WindowsFormsApplication1/ProblemAndSolver.cs:42-59 | the loop computes the cost of the closed route: every edge in order, then the edge back to the start |
| `Tours.PathCostFinite` | WindowsFormsApplication1/ProblemAndSolver.cs:42-59 | a path's cost is finite exactly when every one of its edges is finite |
| `Tours.RouteCostFinite` | WindowsFormsApplication1/ProblemAndSolver.cs:42-59 | a route's cost is finite exactly when its edges, including the one back to the start, are finite |
| `Tours.PathCostNonNeg` | WindowsFormsApplication1/ProblemAndSolver.cs:42-59 | with non-negative distances, a path's cost is non-negative |
| `Tours.RouteCostNonNeg` | WindowsFormsApplication1/ProblemAndSolver.cs:320-326 | with non-negative distances, a route's cost is non-negative, so it never equals the -1 that costOfBssf reports when there is no bssf |
| `Tours.CostTable` | WindowsFormsApplication1/ProblemAndSolver.cs:329-348 | the cost table is square over the cities |
| `Tours.GetCosts` | WindowsFormsApplication1/ProblemAndSolver.cs:329-348 | an n-by-n array holding +infinity on the diagonal and the distance elsewhere |
| `Tours.Nearest` | WindowsFormsApplication1/ProblemAndSolver.cs:1022-1033 | a city below n, or -1 |
| `Tours.NearestIsNearest` | WindowsFormsApplication1/ProblemAndSolver.cs:1022-1033 | when some city is unvisited, the scan picks an unvisited city whose cost is at most every unvisited city's, and every earlier unvisited city is strictly dearer, so it is the first of the cheapest; it answers -1 exactly when every city is visited |
| `Tours.NearestScan` | WindowsFormsApplication1/ProblemAndSolver.cs:1025-1033 | the scan over the cost array picks that city |
| `Tours.VisitedCard` | WindowsFormsApplication1/ProblemAndSolver.cs:1019-1020 | a route of distinct cities visits as many cities as it has entries |
| `Tours.Below` | WindowsFormsApplication1/ProblemAndSolver.cs:1017 | exactly the cities below n |
| `Tours.BelowCard` | WindowsFormsApplication1/ProblemAndSolver.cs:1017 | there are n cities below n |
| `Tours.Unvisited` | WindowsFormsApplication1/ProblemAndSolver.cs:1024-1031 | a partial route shorter than n leaves some city unvisited |
| `Tours.FirstNearestStep` | WindowsFormsApplication1/ProblemAndSolver.cs:1024-1038 | the step the walk takes from a partial route, when its edge is finite, goes to the first of the cheapest unvisited cities |
| `Tours.GreedyExtendIsNearestTour` | WindowsFormsApplication1/ProblemAndSolver.cs:1017-1039 | a walk that completes is a tour that extends the route, and each later step goes over a finite edge to a city not yet visited that is at most every unvisited city's cost, every earlier unvisited city being strictly dearer (the first of the cheapest) |
| `Tours.GreedyFrom` | WindowsFormsApplication1/ProblemAndSolver.cs:1017-1039 | the walk over the arrays succeeds exactly when the greedy tour exists, and then fills the route with it |
| `Tours.GreedyStuckExample` | WindowsFormsApplication1/ProblemAndSolver.cs:1034-1036 | on two cities with no finite edge between them, the walk from city 0 gets stuck |
| `LowerBounds.RootLowerBound` | WindowsFormsApplication1/ProblemAndSolver.cs:796-854 | reduces the array under the root rule and returns the total subtracted |
| `LowerBounds.ChildLowerBound` | WindowsFormsApplication1/ProblemAndSolver.cs:709-793 | blocks the edge's row and column and its reverse, reduces under the child rule, and returns the parent bound plus the edge plus the total subtracted, or +infinity for an infinite edge |
| `LowerBounds.ChildBoundAtLeastEdge` | WindowsFormsApplication1/ProblemAndSolver.cs:709-793 | on a non-negative matrix, the child's matrix stays non-negative; its bound is at least the parent bound plus the edge; and it is +infinity exactly when the edge or the parent bound is |
| `LowerBounds.ChildMatrixBlocks` | WindowsFormsApplication1/ProblemAndSolver.cs:726-736 | in the child's matrix, the parent city's row, the child city's column and the reverse edge are +infinity |
| `LowerBounds.RootLineLikeMin` | WindowsFormsApplication1/ProblemAndSolver.cs:802-826 | on a non-negative line, the root rule and Reduce's rule leave the same line, and subtract the same amount unless every entry is +infinity |
| `LowerBounds.TotalsAgree` | WindowsFormsApplication1/ProblemAndSolver.cs:852-853 | amounts equal one by one add up to equal totals |
| `LowerBounds.RootRowPassShape` | WindowsFormsApplication1/ProblemAndSolver.cs:802-826 | on non-negative costs, the root row pass equals Reduce's row pass |
| `LowerBounds.RootMatrixIsFullReduction` | WindowsFormsApplication1/ProblemAndSolver.cs:796-854 | on non-negative costs, the root matrix equals Matrix.Reduce's result |
| `LowerBounds.RootBoundIsFullReduction` | WindowsFormsApplication1/ProblemAndSolver.cs:796-854 | when no row or column is all +infinity, the root bound equals Matrix.Reduce's total |
| `BranchAndBound.ExtendPartialTour` | WindowsFormsApplication1/ProblemAndSolver.cs:609-633 | adding a city not yet on the path keeps it a partial tour from city 0 |
| `BranchAndBound.FirstGreedy` | WindowsFormsApplication1/ProblemAndSolver.cs:1047-1051 | the first greedy tour is the cheapest one seen so far |
| `BranchAndBound.KeepGreedy` | WindowsFormsApplication1/ProblemAndSolver.cs:1047-1051 | a tour that is not strictly cheaper leaves the bssf the cheapest |
| `BranchAndBound.ReplaceGreedy` | WindowsFormsApplication1/ProblemAndSolver.cs:1047-1051 | a strictly cheaper tour becomes the cheapest |
| `BranchAndBound.BelowCheapestGreedy` | WindowsFormsApplication1/ProblemAndSolver.cs:1047-1051 | a cost at most (below) the kept tour's is at most (below) every greedy tour's cost |
| `BranchAndBound.ProblemAndSolver.constructor` | WindowsFormsApplication1/ProblemAndSolver.cs:404-415 | a solver over n cities and their distances with no bssf |
| `BranchAndBound.ProblemAndSolver.CostOfBssf` | WindowsFormsApplication1/ProblemAndSolver.cs:320-326 | -1 without a bssf, otherwise the cost of its route |
| `BranchAndBound.ProblemAndSolver.GreedySolveProblem` | WindowsFormsApplication1/ProblemAndSolver.cs:1003-1059 | diverges exactly when the walk from some start gets stuck; otherwise the bssf is the earliest cheapest greedy tour, and the count is positive exactly when there are cities |
| `BranchAndBound.ProblemAndSolver.ConsiderTour` | WindowsFormsApplication1/ProblemAndSolver.cs:1045-1051 | the tour replaces the bssf exactly when it is the first or strictly cheaper, and the bssf stays the cheapest so far |
| `BranchAndBound.ProblemAndSolver.MakeRootNode` | WindowsFormsApplication1/ProblemAndSolver.cs:582-607 | the root node's path is city 0, its matrix is the root reduction of the cost table and its bound is the total subtracted |
| `BranchAndBound.ProblemAndSolver.MakeChildNode` | WindowsFormsApplication1/ProblemAndSolver.cs:609-633 | the child's path adds the city, and its matrix and bound are the child calcLowerBound's |
| `BranchAndBound.ProblemAndSolver.QueuedChildrenAreChildren` | WindowsFormsApplication1/ProblemAndSolver.cs:470-501 | every child the loop queues over the first k cities is a partial tour one city longer than the node, extending its path by a city not on it, with a bound below the bssf cost |
| `BranchAndBound.ProblemAndSolver.QueuedChildrenCount` | WindowsFormsApplication1/ProblemAndSolver.cs:470-501 | over the first k cities, the children queued plus the children pruned are exactly the cities generated, i.e. those not on the path |
| `BranchAndBound.ProblemAndSolver.QueuedSoFar` | WindowsFormsApplication1/ProblemAndSolver.cs:470-501 | after the first k cities the queue only gained children of the node, and it pruned no more children than it generated |
| `BranchAndBound.ProblemAndSolver.ExpandNode` | WindowsFormsApplication1/ProblemAndSolver.cs:470-503 | without overflow, the queue afterwards is exactly the old queue plus every child whose edge is finite, whose city is not on the path and whose bound is below the bssf cost; generated counts the cities not on the path, and pruned the rest of those; on overflow the queue only gained such children |
| `BranchAndBound.ProblemAndSolver.ExpandStep` | WindowsFormsApplication1/ProblemAndSolver.cs:470-501 | one turn of the child loop keeps its running totals and queue equal to those of the first k+1 cities |
| `BranchAndBound.ProblemAndSolver.TryChild` | WindowsFormsApplication1/ProblemAndSolver.cs:473-501 | a city on the path is skipped with nothing generated and the queue unchanged; an infinite edge, or a child whose bound is not below the bssf cost, counts as generated and pruned with the queue unchanged; otherwise the child node is inserted, or overflow is reported exactly when the array is full |
| `BranchAndBound.ProblemAndSolver.ServeNode` | WindowsFormsApplication1/ProblemAndSolver.cs:434-503 | a node not below the bssf cost is pruned with the queue and bssf unchanged; a complete path queues nothing, is pruned exactly when its return edge is infinite, and becomes the bssf exactly when its tour is strictly cheaper; any other node is expanded exactly as ExpandNode states and leaves the bssf; everything newly queued is a child of the node below the old bssf cost, and the bssf cost never rises |
| `BranchAndBound.ProblemAndSolver.Search` | WindowsFormsApplication1/ProblemAndSolver.cs:428-505 | the loop never raises the bssf cost above its start, every solution it finds is strictly cheaper, every queued node stays a well-formed partial tour, and when it stops without overflow before its fuel runs out the queue is empty or the bound of the node served next equals the bssf cost |
| `BranchAndBound.ProblemAndSolver.BBSolveProblem` | WindowsFormsApplication1/ProblemAndSolver.cs:404-519 | diverges exactly when the greedy start does; otherwise it reports the bssf cost, which is at most every greedy tour's, strictly below them all when a solution was found, and never prunes more states than it generated plus the root |

## Left out

- The GUI, drawing, problem generation, `defaultSolveProblem` and `fancySolveProblem` are left out. So are the ant-colony solver (Ant.cs) and the results' string formatting. Only the solvers' arithmetic and their queues are modelled.
- City objects are reduced to indices, and costToGetTo to a given square distance table. The distances are parameters of the model.
- Costs are exact reals, not IEEE doubles, so rounding is not modelled. double.MaxValue is the exact real value of the largest double.
- Overflow to +infinity is not modelled. In the code, a sum of doubles rounds to +infinity once its exact value reaches double.MaxValue plus half a unit in the last place (2^970); smaller excesses round back to double.MaxValue. The model keeps every such sum as an exact finite real. Any comparison involving such a sum may therefore go differently from the code: pruning against the bssf cost, the bssf replacement in greedySolveProblem and at a complete path in bBSolveProblem (two tours whose costs both overflow compare equal in the code), and the loop's stop test on getMinLB.
- bBSolveProblem's stopwatch and time limit become a `fuel` bound on the number of loop turns. Search ends when fuel runs out, as the source's loop does when time runs out.
- greedySolveProblem's `goto` restarts a walk that got stuck, and that walk never finishes. The model reports this as the outcome `GreedyDiverges` (or `SolveDiverges`) instead of looping forever.
- PQueue's array has 1000000 slots. An insert into a full array throws in the source; the model reports `QueueOverflow` instead. `capacity` is stored but never used, as in the source.
- HeapQueue.HeapPriorityQueue.Insert: requires that the item is not already queued. The source would silently overwrite the item's index, leaving a stale slot; that case is not modelled.
- HeapQueue.HeapPriorityQueue.Insert: reports `ok == false` where the source throws IndexOutOfRangeException, which happens when DeleteElementsHigherThan left the array exactly full, or on the first Insert into a queue built by WithSize with 0 slots.
- HeapQueue.HeapPriorityQueue.GetLowest: requires a non-empty queue. The source fails on an empty one with an exception that is not modelled.
- Null array slots are not modelled: the element array holds default elements past `size`. The sort's comparer, which puts nulls last, therefore only ever compares real elements.
- Array.Sort is an external library call. It is modelled as an insertion sort (`QueueElements.SortByPriority`) that produces a sorted permutation; the sort's instability is not modelled.
- The `indices.Count > size * 1.2` test is written exactly as `5 * |indices| > 6 * size`.
- The model does not capture aliasing between queues or between solver objects: each class owns its arrays.
- CostMatrix.Create: the code keeps the caller's array by reference (WindowsFormsApplication1/Matrix.cs:24), so later writes by the caller show through the matrix. The model takes a snapshot of the costs and does not capture that aliasing.
- HeapQueue.HeapPriorityQueue.WithSize: takes a natural suggested size. A negative size makes the array allocation throw in the code (WindowsFormsApplication1/HeapPriorityQueue.cs:30), and that exception is not modelled.
- CostMatrix.Matrix.FollowRoute: requires i < cities and j < cities. Out-of-range indices throw IndexOutOfRangeException in the code (WindowsFormsApplication1/Matrix.cs:115-116), and that exception is not modelled.
- BranchAndBound.ProblemAndSolver.MakeRootNode: requires at least one city. With none, `Cities[0]` throws in the code (WindowsFormsApplication1/ProblemAndSolver.cs:585), and that exception is not modelled.
- BranchAndBound.ProblemAndSolver.BBSolveProblem: requires at least one city, for the same reason, since it builds the root node first.
- Tours.CostOfRoute: requires a non-empty route. An empty route throws in the code (WindowsFormsApplication1/ProblemAndSolver.cs:56), and that exception is not modelled.
- Optimality of the branch-and-bound result is not proved. The model proves the invariants the code keeps: the bssf cost never rises, and every queued node other than the root is a partial tour below the bssf cost when it was queued. The root is queued unconditionally.

### Quirks of the code (the model follows the code)

- BBPriority.CompareTo lets depth decide only when the depths differ by more than two. At a gap of exactly two, (1, 10) still compares lower than (3, 50) on cost (`BBPriorityOrder.GapOfTwoComparesCosts`). The comparison is not transitive (`BBPriorityOrder.NotTransitive`).
- Matrix.FollowRoute blocks row i, column j and (j, 0), but not the reverse edge (j, i). It also does not add the followed edge's cost to the bound (`CostMatrix.FollowRouteOmitsEdgeCost`).
- The root calcLowerBound subtracts double.MaxValue from a line that is all +infinity (`Reduction.RootRuleOnAllInfinite`).
- The child calcLowerBound's comment (WindowsFormsApplication1/ProblemAndSolver.cs:751-752) says that min is subtracted from the whole line. The code does so only when the line's last entry is a new running minimum, so a line whose minimum comes earlier is left unreduced (`Reduction.ChildRuleIsPartial`).
- BBNode.CompareTo never answers 0: two tied nodes each compare lower (`NodeQueue.TiesCompareLowerBothWays`). PQueue's getMinLB is the bound of the node served first. That node is the longest path, not necessarily the least bound.
- DeleteElementsHigherThan leaves an array exactly as long as the old size. When nothing was removed, the next Insert finds no free slot.
