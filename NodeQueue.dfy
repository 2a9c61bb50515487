/**
  The search nodes of ProblemAndSolver.cs and PQueue, the binary min-heap
  they wait in. A node's path is a sequence of city indices. The heap is
  1-indexed: slots 1..count of `queuedNodes` are in use, the parent of slot
  k is slot k / 2, and slot 0 is never read.
*/
module NodeQueue {
  import opened Costs
  import opened Reduction
  import QueueElements

  /** BBNode: the partial tour, its reduced cost matrix and its lower bound. */
  datatype BBNode = BBNode(path: seq<nat>, matrix: Grid, lowerBound: Cost)

  /** The order PQueue serves nodes in: the longer path first, and among
      paths of one length the smaller (or equal) bound first. */
  predicate Before(p: BBNode, q: BBNode) {
    |p.path| > |q.path| || (|p.path| == |q.path| && Le(p.lowerBound, q.lowerBound))
  }

  /**
    BBNode.CompareTo: the longer path compares lower; on equal lengths the
    strictly smaller bound does; a tie compares lower from both sides. It
    never answers 0.
  */
  function CompareTo(p: BBNode, q: BBNode): (r: int)
    ensures r == -1 || r == 1
    ensures r == -1 <==> Before(p, q)
  {
    if |p.path| > |q.path| then -1
    else if |p.path| < |q.path| then 1
    else if Lt(p.lowerBound, q.lowerBound) then -1
    else if Lt(q.lowerBound, p.lowerBound) then 1
    else -1
  }

  /** `Before` is a total preorder, so a heap ordered by it serves a node
      that comes before every other. */
  lemma BeforeIsTotalPreorder(p: BBNode, q: BBNode, r: BBNode)
    ensures Before(p, p)
    ensures Before(p, q) || Before(q, p)
    ensures Before(p, q) && Before(q, r) ==> Before(p, r)
  {
    LtStrictTotal(p.lowerBound, q.lowerBound, r.lowerBound);
    LtStrictTotal(r.lowerBound, q.lowerBound, p.lowerBound);
    LtStrictTotal(q.lowerBound, p.lowerBound, r.lowerBound);
    LtStrictTotal(r.lowerBound, p.lowerBound, q.lowerBound);
  }

  /** Two nodes of equal length and bound each compare lower than the other,
      which IComparable's contract does not allow. */
  lemma TiesCompareLowerBothWays(p: BBNode, q: BBNode)
    requires |p.path| == |q.path| && p.lowerBound == q.lowerBound
    ensures CompareTo(p, q) == -1 && CompareTo(q, p) == -1
  {
    LtStrictTotal(p.lowerBound, q.lowerBound, q.lowerBound);
  }

  // ---------------------------------------------------------------------
  // Heap shape of slots 1..count

  /** The slot of k's parent. */
  function Up(k: int): int {
    k / 2
  }

  /** The nodes in slots 1..count. */
  ghost function Bag(s: seq<BBNode>, count: int): multiset<BBNode>
    requires 0 <= count < |s|
  {
    multiset(s[1..count + 1])
  }

  ghost predicate Heap(s: seq<BBNode>, count: int)
    requires 0 <= count < |s|
  {
    forall k {:trigger Up(k)} :: 2 <= k <= count ==> Before(s[Up(k)], s[k])
  }

  /** Heap order except between slot i and its parent; i's parent also
      comes before i's children. */
  ghost predicate UpHeapExcept(s: seq<BBNode>, count: int, i: int)
    requires 1 <= i <= count < |s|
  {
    (forall k {:trigger Up(k)} :: 2 <= k <= count && k != i ==> Before(s[Up(k)], s[k])) &&
    (forall k :: 2 <= k <= count && Up(k) == i && i > 1 ==> Before(s[Up(i)], s[k]))
  }

  /** Heap order except between slot i and its children; i's parent also
      comes before i's children. */
  ghost predicate DownHeapExcept(s: seq<BBNode>, count: int, i: int)
    requires 1 <= i && 0 <= count < |s|
  {
    (forall k {:trigger Up(k)} :: 2 <= k <= count && Up(k) != i ==> Before(s[Up(k)], s[k])) &&
    (forall k :: 2 <= k <= count && Up(k) == i && i > 1 ==> Before(s[Up(i)], s[k]))
  }

  lemma ChildrenOf(i: int, k: int)
    requires 1 <= i && 2 <= k && Up(k) == i
    ensures k == 2 * i || k == 2 * i + 1
  {
  }

  /** Moving the element after slot count into slot 1 takes out slot 1's
      element and keeps the rest. */
  lemma LastToFirst<T>(s: seq<T>, count: int)
    requires 0 <= count && count + 1 < |s|
    ensures multiset(s[1..count + 2]) == multiset(s[1 := s[count + 1]][1..count + 1]) + multiset{s[1]}
  {
    Rotated(s[1..count + 2], s[1 := s[count + 1]][1..count + 1]);
  }

  /** b is a with its last element moved to the front and its first dropped. */
  lemma Rotated<T>(a: seq<T>, b: seq<T>)
    requires |a| == |b| + 1
    requires |b| > 0 ==> b[0] == a[|b|]
    requires forall k :: 1 <= k < |b| ==> b[k] == a[k]
    ensures multiset(a) == multiset(b) + multiset{a[0]}
  {
    if |b| == 0 {
      assert a == [a[0]];
    } else {
      var m := a[1..|b|];
      assert a == [a[0]] + m + [a[|b|]];
      assert b == [b[0]] + m;
      SwapEnds(a[0], m, a[|b|]);
    }
  }

  lemma SwapEnds<T>(h: T, m: seq<T>, x: T)
    ensures multiset([h] + m + [x]) == multiset([x] + m) + multiset{h}
  {
    calc {
      multiset([h] + m + [x]);
      multiset{h} + multiset(m) + multiset{x};
      multiset{x} + multiset(m) + multiset{h};
      multiset([x] + m) + multiset{h};
    }
  }

  lemma {:induction false} FirstBelow(s: seq<BBNode>, count: int, k: int)
    requires 1 <= k <= count < |s| && Heap(s, count)
    ensures Before(s[1], s[k])
    decreases k
  {
    if k == 1 {
      BeforeIsTotalPreorder(s[1], s[1], s[1]);
    } else {
      FirstBelow(s, count, Up(k));
      BeforeIsTotalPreorder(s[1], s[Up(k)], s[k]);
    }
  }

  /** The node in slot 1 of a heap comes before every queued node. */
  lemma FirstIsFirst(s: seq<BBNode>, count: int)
    requires 1 <= count < |s| && Heap(s, count)
    ensures forall e :: e in Bag(s, count) ==> Before(s[1], e)
  {
    forall e | e in Bag(s, count)
      ensures Before(s[1], e)
    {
      var k :| 0 <= k < count && s[1..count + 1][k] == e;
      FirstBelow(s, count, k + 1);
    }
  }

  lemma UpStep(s: seq<BBNode>, count: int, i: int)
    requires 1 < i <= count < |s| && UpHeapExcept(s, count, i) && !Before(s[Up(i)], s[i])
    ensures UpHeapExcept(QueueElements.Exchanged(s, i, Up(i)), count, Up(i))
  {
    var p := Up(i);
    var r := QueueElements.Exchanged(s, i, p);
    BeforeIsTotalPreorder(s[i], s[p], s[i]);
    forall k | 2 <= k <= count && k != p
      ensures Before(r[Up(k)], r[k])
    {
      if k != i && Up(k) == p {
        BeforeIsTotalPreorder(s[i], s[p], s[k]);
      }
    }
    forall k | 2 <= k <= count && Up(k) == p && p > 1
      ensures Before(r[Up(p)], r[k])
    {
      if k != i {
        BeforeIsTotalPreorder(s[Up(p)], s[p], s[k]);
      }
    }
  }

  lemma UpDone(s: seq<BBNode>, count: int, i: int)
    requires 1 <= i <= count < |s| && UpHeapExcept(s, count, i)
    requires i == 1 || Before(s[Up(i)], s[i])
    ensures Heap(s, count)
  {
  }

  /** Slot c is the child of i that comes first. */
  ghost predicate FirstChild(s: seq<BBNode>, count: int, i: int, c: int)
    requires 1 <= i && 0 <= count < |s|
  {
    (c == 2 * i || c == 2 * i + 1) && 2 <= c <= count &&
    forall k :: 2 <= k <= count && Up(k) == i ==> Before(s[c], s[k])
  }

  lemma DownSwap(s: seq<BBNode>, count: int, i: int, c: int)
    requires 1 <= i && 0 <= count < |s| && DownHeapExcept(s, count, i) && FirstChild(s, count, i, c)
    requires !Before(s[i], s[c])
    ensures DownHeapExcept(QueueElements.Exchanged(s, i, c), count, c)
  {
    var r := QueueElements.Exchanged(s, i, c);
    BeforeIsTotalPreorder(s[c], s[i], s[c]);
    forall k | 2 <= k <= count && Up(k) != c
      ensures Before(r[Up(k)], r[k])
    {
      if k == c {
      } else if Up(k) == i {
      } else if k == i {
        BeforeIsTotalPreorder(s[Up(i)], s[c], s[c]);
      }
    }
    forall k | 2 <= k <= count && Up(k) == c
      ensures Before(r[Up(c)], r[k])
    {
      assert Up(c) == i;
    }
  }

  lemma DownKeep(s: seq<BBNode>, count: int, i: int, c: int)
    requires 1 <= i && 0 <= count < |s| && DownHeapExcept(s, count, i) && FirstChild(s, count, i, c)
    requires Before(s[i], s[c])
    ensures Heap(s, count) && DownHeapExcept(s, count, c)
  {
    forall k | 2 <= k <= count && Up(k) == i
      ensures Before(s[i], s[k])
    {
      BeforeIsTotalPreorder(s[i], s[c], s[k]);
    }
    forall k | 2 <= k <= count && Up(k) == c
      ensures Before(s[Up(c)], s[k])
    {
      assert Up(c) == i;
      BeforeIsTotalPreorder(s[i], s[c], s[k]);
    }
  }

  lemma DownDone(s: seq<BBNode>, count: int, i: int)
    requires 1 <= i && 0 <= count < |s| && DownHeapExcept(s, count, i) && 2 * i > count
    ensures Heap(s, count)
  {
    forall k | 2 <= k <= count
      ensures Up(k) != i
    {
    }
  }

  lemma PickFirstChild(s: seq<BBNode>, count: int, i: int, c: int)
    requires 1 <= i && 2 * i <= count < |s|
    requires c == if 2 * i + 1 <= count && CompareTo(s[2 * i + 1], s[2 * i]) < 0 then 2 * i + 1 else 2 * i
    ensures FirstChild(s, count, i, c)
  {
    BeforeIsTotalPreorder(s[2 * i], s[2 * i], s[2 * i]);
    if 2 * i + 1 <= count {
      BeforeIsTotalPreorder(s[2 * i + 1], s[2 * i], s[2 * i + 1]);
    }
    forall k | 2 <= k <= count && Up(k) == i
      ensures k == 2 * i || k == 2 * i + 1
    {
      ChildrenOf(i, k);
    }
  }

  /** The array-backed queue of nodes. */
  class PQueue {
    var capacity: int
    var count: int
    var maxNum: int
    var queuedNodes: array<BBNode>

    /** Slots 1..count are in use and heap-ordered; maxNum is at least count. */
    ghost predicate Valid()
      reads this, queuedNodes
    {
      0 <= count < queuedNodes.Length && count <= maxNum && Heap(queuedNodes[..], count)
    }

    /** The queued nodes, as a bag. */
    ghost function Contents(): multiset<BBNode>
      reads this, queuedNodes
      requires 0 <= count < queuedNodes.Length
    {
      Bag(queuedNodes[..], count)
    }

    /** A queue before makeQueue: no nodes, no array to hold them. */
    constructor ()
      ensures capacity == 0 && count == 0 && maxNum == 0 && queuedNodes.Length == 0
    {
      capacity := 0;
      count := 0;
      maxNum := 0;
      queuedNodes := new BBNode[0];
    }

    function IsEmpty(): (r: bool)
      reads this, queuedNodes
      requires Valid()
      ensures r <==> Contents() == multiset{}
    {
      assert count > 0 ==> queuedNodes[1] in Contents();
      count == 0
    }

    /** The bound of the node served next: a queued node that comes before
        every queued node. It is not the least bound in the queue. */
    function GetMinLB(): (r: Cost)
      reads this, queuedNodes
      requires Valid() && count > 0
      ensures exists e :: e in Contents() && e.lowerBound == r && forall f :: f in Contents() ==> Before(e, f)
    {
      FirstIsFirst(queuedNodes[..], count);
      assert queuedNodes[..][1..count + 1][0] == queuedNodes[1];
      queuedNodes[1].lowerBound
    }

    function GetSize(): (r: int)
      reads this, queuedNodes
      requires Valid()
      ensures r == |Contents()|
    {
      count
    }

    function GetMaxNumOfItems(): (r: int)
      reads this, queuedNodes
      requires Valid()
      ensures r >= |Contents()|
    {
      maxNum
    }

    /** A fresh array of 1000000 slots; the node count is recorded as the
        capacity and nothing else reads it. */
    method MakeQueue(numOfNodes: int)
      modifies this
      ensures Valid() && fresh(queuedNodes)
      ensures queuedNodes.Length == 1000000 && capacity == numOfNodes
      ensures count == 0 && maxNum == 0 && Contents() == multiset{}
    {
      queuedNodes := new BBNode[1000000];
      capacity := numOfNodes;
      count := 0;
      maxNum := 0;
    }

    method Exchange(a: int, b: int)
      requires 1 <= a <= count && 1 <= b <= count && count < queuedNodes.Length
      modifies queuedNodes
      ensures queuedNodes[..] == QueueElements.Exchanged(old(queuedNodes[..]), a, b)
      ensures Bag(queuedNodes[..], count) == Bag(old(queuedNodes[..]), count)
    {
      ghost var s := queuedNodes[..];
      var temp := queuedNodes[a];
      queuedNodes[a] := queuedNodes[b];
      queuedNodes[b] := temp;
      assert queuedNodes[..] == QueueElements.Exchanged(s, a, b);
      SwapKeepsBag(s, a, b, count);
    }

    static lemma SwapKeepsBag(s: seq<BBNode>, a: int, b: int, count: int)
      requires 1 <= a <= count && 1 <= b <= count && count < |s|
      ensures Bag(QueueElements.Exchanged(s, a, b), count) == Bag(s, count)
    {
      var t := s[1..count + 1];
      assert QueueElements.Exchanged(s, a, b)[1..count + 1] == t[a - 1 := s[b]][b - 1 := s[a]];
    }

    /**
      insert: the node goes into the next slot, the high-water mark follows
      the count, and the node moves up while its parent compares higher.
      The source writes past a full array; here the caller must leave room.
    */
    method Insert(node: BBNode)
      requires Valid() && count + 1 < queuedNodes.Length
      modifies this, queuedNodes
      ensures Valid() && queuedNodes == old(queuedNodes) && capacity == old(capacity)
      ensures count == old(count) + 1
      ensures Contents() == old(Contents()) + multiset{node}
      ensures maxNum == if count > old(maxNum) then count else old(maxNum)
    {
      ghost var s := queuedNodes[..];
      ghost var n := count + 1;
      ghost var t := s[n := node];
      ghost var c1 := Contents() + multiset{node};
      assert c1 == Bag(s, n - 1) + multiset{node};
      AppendedBag(s, n, node);
      AppendedUpHeap(s, n, node);
      assert Bag(t, n) == c1 && UpHeapExcept(t, n, n);
      Place(s, node);
      if count > maxNum {
        maxNum := count;
      }
      assert count == n && queuedNodes[..] == t;
      SiftUp(count, t);
      assert Contents() == c1 && Valid();
    }

    /** The first half of insert: the node goes to the slot after the last. */
    method Place(ghost s: seq<BBNode>, node: BBNode)
      requires 0 <= count && count + 1 < queuedNodes.Length && queuedNodes[..] == s
      modifies this`count, queuedNodes
      ensures count == old(count) + 1 && queuedNodes[..] == s[count := node]
    {
      count := count + 1;
      queuedNodes[count] := node;
    }

    /** insert's loop: the node in slot i moves up while its parent compares
        higher. */
    method SiftUp(i0: int, ghost s: seq<BBNode>)
      requires 1 <= i0 <= count < queuedNodes.Length && queuedNodes[..] == s && UpHeapExcept(s, count, i0)
      modifies queuedNodes
      ensures Heap(queuedNodes[..], count)
      ensures Bag(queuedNodes[..], count) == Bag(s, count)
    {
      var i := i0;
      while i > 1 && CompareTo(queuedNodes[i / 2], queuedNodes[i]) > 0
        invariant 1 <= i <= count
        invariant UpHeapExcept(queuedNodes[..], count, i)
        invariant Bag(queuedNodes[..], count) == Bag(s, count)
        decreases i
      {
        UpStep(queuedNodes[..], count, i);
        Exchange(i, i / 2);
        i := i / 2;
      }
      UpDone(queuedNodes[..], count, i);
    }

    static lemma AppendedBag(s: seq<BBNode>, count: int, node: BBNode)
      requires 1 <= count < |s|
      ensures Bag(s[count := node], count) == Bag(s, count - 1) + multiset{node}
    {
      assert s[count := node][1..count + 1] == s[1..count] + [node];
    }

    /** A node put in the slot after a heap leaves a heap except above it. */
    static lemma AppendedUpHeap(s: seq<BBNode>, count: int, node: BBNode)
      requires 1 <= count < |s| && Heap(s, count - 1)
      ensures UpHeapExcept(s[count := node], count, count)
    {
      var r := s[count := node];
      forall k | 2 <= k <= count && k != count
        ensures Before(r[Up(k)], r[k])
      {
        assert Up(k) < k;
      }
      forall k | 2 <= k <= count
        ensures Up(k) != count
      {
      }
    }

    /**
      deleteMin: takes the node in slot 1, which comes before every queued
      node, moves the last node there and walks it down, at each step to the
      child that comes first, exchanging while the parent compares higher.
    */
    method DeleteMin() returns (min: BBNode)
      requires Valid() && count > 0
      modifies this, queuedNodes
      ensures Valid() && queuedNodes == old(queuedNodes)
      ensures count == old(count) - 1 && maxNum == old(maxNum) && capacity == old(capacity)
      ensures old(Contents()) == Contents() + multiset{min}
      ensures forall e :: e in old(Contents()) ==> Before(min, e)
    {
      ghost var s := queuedNodes[..];
      ghost var n := count;
      ghost var c0 := Contents();
      assert c0 == Bag(s, n);
      ghost var r := s[1 := s[n]];
      RemovedFirst(s, n - 1);
      FirstIsFirst(s, n);
      ghost var rest := Bag(r, n - 1);
      assert c0 == rest + multiset{s[1]} && DownHeapExcept(r, n - 1, 1);
      assert forall e :: e in c0 ==> Before(s[1], e);
      min := TakeFirst(s);
      assert count == n - 1 && queuedNodes[..] == r;
      SiftDown(r);
      assert Contents() == rest;
    }

    /** The first half of deleteMin: the first node leaves and the last node
        takes slot 1. */
    method TakeFirst(ghost s: seq<BBNode>) returns (min: BBNode)
      requires 0 < count < queuedNodes.Length && queuedNodes[..] == s
      modifies this`count, queuedNodes
      ensures count == old(count) - 1 && min == s[1]
      ensures queuedNodes[..] == s[1 := s[old(count)]]
    {
      min := queuedNodes[1];
      queuedNodes[1] := queuedNodes[count];
      count := count - 1;
    }

    /** deleteMin's loop: the node in slot 1 walks down, at each step to the
        child that comes first, exchanging while it compares higher. */
    method SiftDown(ghost s: seq<BBNode>)
      requires 0 <= count < queuedNodes.Length && count <= maxNum
      requires queuedNodes[..] == s && DownHeapExcept(s, count, 1)
      modifies queuedNodes
      ensures Valid()
      ensures Bag(queuedNodes[..], count) == Bag(s, count)
    {
      var i := 1;
      while i <= count
        invariant 1 <= i
        invariant i > count ==> 2 * i > count
        invariant DownHeapExcept(queuedNodes[..], count, i)
        invariant Bag(queuedNodes[..], count) == Bag(s, count)
        decreases count + 1 - i
      {
        var child := 2 * i;
        if child > count {
          break;
        }
        i := SiftStep(i);
      }
      DownDone(queuedNodes[..], count, i);
    }

    /** One step of deleteMin's loop: the child of slot i that comes first
        is picked, and the two exchange when slot i compares higher. */
    method SiftStep(i: int) returns (child: int)
      requires 1 <= i && 2 * i <= count < queuedNodes.Length && DownHeapExcept(queuedNodes[..], count, i)
      modifies queuedNodes
      ensures i < child <= count
      ensures DownHeapExcept(queuedNodes[..], count, child)
      ensures Bag(queuedNodes[..], count) == Bag(old(queuedNodes[..]), count)
    {
      child := 2 * i;
      if child + 1 <= count && CompareTo(queuedNodes[child + 1], queuedNodes[child]) < 0 {
        child := child + 1;
      }
      ghost var s := queuedNodes[..];
      PickFirstChild(s, count, i, child);
      if CompareTo(queuedNodes[i], queuedNodes[child]) > 0 {
        assert !Before(s[i], s[child]);
        DownSwap(s, count, i, child);
        Exchange(i, child);
        assert queuedNodes[..] == QueueElements.Exchanged(s, i, child);
      } else {
        DownKeep(s, count, i, child);
      }
    }

    /** What deleteMin's first moves leave: the last node in slot 1, the
        others where they were, the taken node gone. */
    static lemma RemovedFirst(s: seq<BBNode>, count: int)
      requires 0 <= count && count + 1 < |s| && Heap(s, count + 1)
      ensures DownHeapExcept(s[1 := s[count + 1]], count, 1)
      ensures Bag(s, count + 1) == Bag(s[1 := s[count + 1]], count) + multiset{s[1]}
    {
      var r := s[1 := s[count + 1]];
      forall k | 2 <= k <= count && Up(k) != 1
        ensures Before(r[Up(k)], r[k])
      {
        assert r[Up(k)] == s[Up(k)] && r[k] == s[k];
      }
      RemovedFirstBag(s, count);
    }

    static lemma RemovedFirstBag(s: seq<BBNode>, count: int)
      requires 0 <= count && count + 1 < |s|
      ensures Bag(s, count + 1) == Bag(s[1 := s[count + 1]], count) + multiset{s[1]}
    {
      LastToFirst(s, count);
    }
  }
}
