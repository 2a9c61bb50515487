/**
  The indexed binary min-heap of HeapPriorityQueue.cs. The live elements
  occupy the slots 0..size-1 of `elements`, each parent comparing at most
  its children; `indices` maps every live item to its slot and keeps the
  items taken out by GetLowest mapped to -1 until the map is cleaned.
*/
module HeapQueue {
  import opened Wrappers
  import opened QueueElements

  /** The exceptions GetElement raises: an unknown item, or slot -1. */
  datatype QueueError = KeyNotFound | IndexOutOfRange

  function Parent(k: int): int {
    (k - 1) / 2
  }

  // ---------------------------------------------------------------------
  // Shape of the first n slots

  ghost predicate HeapOrdered<T, K>(cmp: (K, K) -> int, s: seq<Element<T, K>>, n: int)
    requires 0 <= n <= |s|
  {
    forall k :: 0 < k < n ==> cmp(s[Parent(k)].priority, s[k].priority) <= 0
  }

  /**
    Every live slot is recorded under its item, and every recorded item is
    either -1 or the item of the live slot it names.
  */
  ghost predicate IndexedBy<T, K>(s: seq<Element<T, K>>, n: int, m: map<T, int>)
    requires 0 <= n <= |s|
  {
    (forall k :: 0 <= k < n ==> s[k].item in m && m[s[k].item] == k) &&
    (forall t :: t in m ==> m[t] == -1 || (0 <= m[t] < n && s[m[t]].item == t))
  }

  /** The entries of m that are not -1: what CleanIndices keeps. */
  function Cleaned<T>(m: map<T, int>): map<T, int> {
    map t | t in m && m[t] != -1 :: m[t]
  }

  /** m' records the same items as m, and records at -1 exactly the items
      m records at -1: only the slots of live items may differ. */
  ghost predicate SameRecords<T>(m: map<T, int>, m': map<T, int>) {
    m'.Keys == m.Keys && forall t :: t in m ==> (m'[t] == -1 <==> m[t] == -1)
  }

  lemma SameRecordsChain<T>(m: map<T, int>, m': map<T, int>, m'': map<T, int>)
    requires SameRecords(m, m') && SameRecords(m', m'')
    ensures SameRecords(m, m'')
  {
  }

  /** Cleaning two maps with the same records gives maps with the same
      records, and the two maps have the same size. */
  lemma CleanedSameRecords<T>(m: map<T, int>, m': map<T, int>)
    requires SameRecords(m, m')
    ensures SameRecords(Cleaned(m), Cleaned(m')) && |m'| == |m|
  {
    assert Cleaned(m').Keys == Cleaned(m).Keys;
    assert |m'| == |m'.Keys| == |m.Keys| == |m|;
  }

  /** Heap order everywhere except between slot i and its parent; the
      parent of i also compares at most i's children. */
  ghost predicate UpHeapExcept<T, K>(cmp: (K, K) -> int, s: seq<Element<T, K>>, n: int, i: int)
    requires 0 <= i < n <= |s|
  {
    (forall k :: 0 < k < n && k != i ==> cmp(s[Parent(k)].priority, s[k].priority) <= 0) &&
    (forall k :: 0 < k < n && Parent(k) == i && i > 0 ==> cmp(s[Parent(i)].priority, s[k].priority) <= 0)
  }

  /** Heap order everywhere except between slot i and its children; the
      parent of i also compares at most i's children. */
  ghost predicate DownHeapExcept<T, K>(cmp: (K, K) -> int, s: seq<Element<T, K>>, n: int, i: int)
    requires 0 <= i < n <= |s|
  {
    (forall k :: 0 < k < n && Parent(k) != i ==> cmp(s[Parent(k)].priority, s[k].priority) <= 0) &&
    (forall k :: 0 < k < n && Parent(k) == i && i > 0 ==> cmp(s[Parent(i)].priority, s[k].priority) <= 0)
  }

  // ---------------------------------------------------------------------
  // Lemmas about those shapes

  lemma IndexedDistinct<T, K>(s: seq<Element<T, K>>, n: int, m: map<T, int>)
    requires 0 <= n <= |s| && IndexedBy(s, n, m)
    ensures ItemsDistinct(s[..n])
  {
  }

  /** In a heap every slot compares at least the root. */
  lemma {:induction false} RootBelow<T, K(!new)>(cmp: (K, K) -> int, s: seq<Element<T, K>>, n: int, k: int)
    requires IsComparator(cmp) && 0 <= k < n <= |s| && HeapOrdered(cmp, s, n)
    ensures cmp(s[0].priority, s[k].priority) <= 0
    decreases k
  {
    if k == 0 {
      Flip(cmp, s[0].priority, s[0].priority);
    } else {
      RootBelow(cmp, s, n, Parent(k));
      Transitive(cmp, s[0].priority, s[Parent(k)].priority, s[k].priority);
    }
  }

  lemma RootIsLowest<T, K(!new)>(cmp: (K, K) -> int, s: seq<Element<T, K>>, n: int)
    requires IsComparator(cmp) && 0 < n <= |s| && HeapOrdered(cmp, s, n)
    ensures forall e :: e in multiset(s[..n]) ==> cmp(s[0].priority, e.priority) <= 0
  {
    forall e | e in multiset(s[..n])
      ensures cmp(s[0].priority, e.priority) <= 0
    {
      var k :| 0 <= k < n && s[..n][k] == e;
      RootBelow(cmp, s, n, k);
    }
  }

  /** Swapping two live slots and re-recording both moved items keeps the
      index map exact. */
  lemma SwapIndexed<T, K>(s: seq<Element<T, K>>, n: int, m: map<T, int>, a: int, b: int)
    requires 0 <= a < n && 0 <= b < n && n <= |s| && IndexedBy(s, n, m)
    ensures var r := Exchanged(s, a, b);
            IndexedBy(r, n, m[r[a].item := a][r[b].item := b])
  {
    IndexedDistinct(s, n, m);
    assert forall k :: 0 <= k < n ==> s[..n][k] == s[k];
  }

  lemma SwapUpStep<T, K(!new)>(cmp: (K, K) -> int, s: seq<Element<T, K>>, n: int, i: int)
    requires IsComparator(cmp) && 0 < i < n <= |s| && UpHeapExcept(cmp, s, n, i)
    requires cmp(s[Parent(i)].priority, s[i].priority) > 0
    ensures UpHeapExcept(cmp, Exchanged(s, i, Parent(i)), n, Parent(i))
  {
    var p := Parent(i);
    var r := Exchanged(s, i, p);
    var x, y := s[i].priority, s[p].priority;
    Flip(cmp, y, x);
    forall k | 0 < k < n && k != p
      ensures cmp(r[Parent(k)].priority, r[k].priority) <= 0
    {
      if k == i {
      } else if Parent(k) == i {
      } else if Parent(k) == p {
        Transitive(cmp, x, y, s[k].priority);
      }
    }
    forall k | 0 < k < n && Parent(k) == p && p > 0
      ensures cmp(r[Parent(p)].priority, r[k].priority) <= 0
    {
      if k != i {
        Transitive(cmp, s[Parent(p)].priority, y, s[k].priority);
      }
    }
  }

  lemma SwapDownStep<T, K(!new)>(cmp: (K, K) -> int, s: seq<Element<T, K>>, n: int, i: int, lower: int)
    requires IsComparator(cmp) && 0 <= i < lower < n <= |s| && DownHeapExcept(cmp, s, n, i)
    requires lower == 2 * i + 1 || lower == 2 * i + 2
    requires forall c :: 0 < c < n && Parent(c) == i ==> cmp(s[lower].priority, s[c].priority) <= 0
    requires cmp(s[i].priority, s[lower].priority) > 0
    ensures DownHeapExcept(cmp, Exchanged(s, i, lower), n, lower)
  {
    var r := Exchanged(s, i, lower);
    Flip(cmp, s[i].priority, s[lower].priority);
    forall k | 0 < k < n && Parent(k) != lower
      ensures cmp(r[Parent(k)].priority, r[k].priority) <= 0
    {
    }
  }

  lemma DownHeapDone<T, K>(cmp: (K, K) -> int, s: seq<Element<T, K>>, n: int, i: int)
    requires 0 <= i < n <= |s| && DownHeapExcept(cmp, s, n, i)
    requires forall c :: 0 < c < n && Parent(c) == i ==> cmp(s[i].priority, s[c].priority) <= 0
    ensures HeapOrdered(cmp, s, n)
  {
  }

  lemma ChildrenOf(index: int, c: int)
    requires 0 <= index
    ensures 0 < c && Parent(c) == index <==> c == 2 * index + 1 || c == 2 * index + 2
  {
  }

  /** Sorted slots form a heap: a parent precedes its children. */
  lemma SortedSlotsHeap<T, K>(cmp: (K, K) -> int, s: seq<Element<T, K>>, n: int)
    requires 0 <= n <= |s| && Sorted(cmp, s[..n])
    ensures HeapOrdered(cmp, s, n)
  {
    forall k | 0 < k < n
      ensures cmp(s[Parent(k)].priority, s[k].priority) <= 0
    {
      assert s[..n][Parent(k)] == s[Parent(k)] && s[..n][k] == s[k];
    }
  }

  // ---------------------------------------------------------------------
  // The queue

  class HeapPriorityQueue<T(==, 0), K(0, !new)> {
    /** K's CompareTo. */
    const cmp: (K, K) -> int
    var size: int
    var elements: array<Element<T, K>>
    var indices: map<T, int>

    ghost predicate Valid()
      reads this, elements
    {
      IsComparator(cmp) &&
      0 <= size <= elements.Length &&
      HeapOrdered(cmp, elements[..], size) &&
      IndexedBy(elements[..], size, indices)
    }

    /** The live elements, as a bag. */
    ghost function Contents(): multiset<Element<T, K>>
      reads this, elements
      requires 0 <= size <= elements.Length
    {
      multiset(elements[..size])
    }

    /** The item is in the queue (recorded, and not at -1). */
    predicate Live(item: T)
      reads this
    {
      item in indices && indices[item] != -1
    }

    constructor (cmp: (K, K) -> int)
      requires IsComparator(cmp)
      ensures Valid() && fresh(elements)
      ensures this.cmp == cmp && size == 0 && elements.Length == 20 && indices == map[]
    {
      this.cmp := cmp;
      size := 0;
      elements := new Element<T, K>[20];
      indices := map[];
    }

    constructor WithSize(cmp: (K, K) -> int, suggestedSize: nat)
      requires IsComparator(cmp)
      ensures Valid() && fresh(elements)
      ensures this.cmp == cmp && size == 0 && elements.Length == suggestedSize && indices == map[]
    {
      this.cmp := cmp;
      size := 0;
      elements := new Element<T, K>[suggestedSize];
      indices := map[];
    }

    function Size(): (r: int)
      reads this, elements
      requires Valid()
      ensures r == |Contents()|
    {
      size
    }

    function IsEmpty(): (r: bool)
      reads this, elements
      requires Valid()
      ensures r <==> Contents() == multiset{}
    {
      assert size > 0 ==> elements[0] in Contents();
      size == 0
    }

    /**
      GetPriority through GetElement: the priority of the element the item
      is recorded at. An item absent from the index (never inserted, or
      dropped by a cleaning) raises KeyNotFound and an item taken out and
      still recorded at -1 raises IndexOutOfRange.
    */
    function GetPriority(item: T): (r: Result<K, QueueError>)
      reads this, elements
      requires Valid()
      ensures r.Success? <==> Live(item)
      ensures r == Failure(KeyNotFound) <==> item !in indices
      ensures r.Success? ==> Element(item, r.value) in Contents()
      ensures r.Success? ==> forall e :: e in Contents() && e.item == item ==> e.priority == r.value
    {
      if item !in indices then Failure(KeyNotFound)
      else if indices[item] == -1 then Failure(IndexOutOfRange)
      else
        assert elements[..size][indices[item]] == elements[indices[item]];
        Success(elements[indices[item]].priority)
    }

    /**
      Of the children of `index`, the one whose priority compares lowest:
      the left one unless the right one exists and the left one does not
      compare strictly below it.
    */
    function GetLowestChildOfIndex(index: int): (lower: int)
      reads this, elements
      requires IsComparator(cmp) && 0 <= index && index * 2 + 1 < size <= elements.Length
      ensures lower == index * 2 + 1 <==> (index * 2 + 2 >= size || cmp(elements[index * 2 + 1].priority, elements[index * 2 + 2].priority) < 0)
      ensures lower == index * 2 + 1 || lower == index * 2 + 2
      ensures lower < size
      ensures forall c :: 0 < c < size && Parent(c) == index ==> cmp(elements[lower].priority, elements[c].priority) <= 0
    {
      var left := index * 2 + 1;
      var right := index * 2 + 2;
      LowestChildIsLowest(index, left, right);
      if right >= size || cmp(elements[left].priority, elements[right].priority) < 0 then left
      else right
    }

    lemma LowestChildIsLowest(index: int, left: int, right: int)
      requires IsComparator(cmp) && 0 <= index && left == index * 2 + 1 && right == index * 2 + 2
      requires left < size <= elements.Length
      ensures forall c :: 0 < c < size && Parent(c) == index ==> c == left || c == right
      ensures forall c :: 0 < c < size && Parent(c) == index ==> cmp(elements[c].priority, elements[c].priority) == 0
      ensures right < size && cmp(elements[left].priority, elements[right].priority) >= 0 ==> cmp(elements[right].priority, elements[left].priority) <= 0
    {
      forall c | 0 < c < size && Parent(c) == index
        ensures c == left || c == right
      {
        ChildrenOf(index, c);
      }
      Flip(cmp, elements[left].priority, elements[left].priority);
      if right < size {
        Flip(cmp, elements[left].priority, elements[right].priority);
        Flip(cmp, elements[right].priority, elements[right].priority);
      }
    }

    /** Exchanges two live slots and re-records both moved items. */
    method Swap(a: int, b: int, ghost n: int)
      requires 0 <= a < n && 0 <= b < n && n <= elements.Length && IndexedBy(elements[..], n, indices)
      modifies elements, this`indices
      ensures elements[..] == Exchanged(old(elements[..]), a, b)
      ensures IndexedBy(elements[..], n, indices)
      ensures indices == old(indices)[old(elements[b]).item := a][old(elements[a]).item := b]
      ensures SameRecords(old(indices), indices)
      ensures multiset(elements[..n]) == old(multiset(elements[..n]))
      ensures elements[n..] == old(elements[n..])
    {
      ghost var s := elements[..];
      SwapIndexed(s, n, indices, a, b);
      var temp := elements[a];
      elements[a] := elements[b];
      elements[b] := temp;
      indices := indices[elements[a].item := a];
      indices := indices[elements[b].item := b];
      assert elements[..] == Exchanged(s, a, b);
      assert elements[..n] == Exchanged(s[..n], a, b);
    }

    /** Sift-up of slot `index` among the first `n` slots. */
    method BubbleIndexUp(index: int, ghost n: int)
      requires IsComparator(cmp) && 0 <= index < n <= elements.Length
      requires UpHeapExcept(cmp, elements[..], n, index) && IndexedBy(elements[..], n, indices)
      modifies elements, this`indices
      ensures HeapOrdered(cmp, elements[..], n) && IndexedBy(elements[..], n, indices)
      ensures SameRecords(old(indices), indices)
      ensures multiset(elements[..n]) == old(multiset(elements[..n]))
      ensures elements[n..] == old(elements[n..])
      decreases index
    {
      if index == 0 {
        return;
      }
      var parent := (index - 1) / 2;
      if cmp(elements[parent].priority, elements[index].priority) > 0 {
        SwapUpStep(cmp, elements[..], n, index);
        Swap(index, parent, n);
        BubbleIndexUp(parent, n);
      }
    }

    /** Sift-down of slot `index` among the live slots. */
    method BubbleIndexDown(index: int)
      requires IsComparator(cmp) && 0 <= index < size <= elements.Length
      requires DownHeapExcept(cmp, elements[..], size, index) && IndexedBy(elements[..], size, indices)
      modifies elements, this`indices
      ensures HeapOrdered(cmp, elements[..], size) && IndexedBy(elements[..], size, indices)
      ensures SameRecords(old(indices), indices)
      ensures multiset(elements[..size]) == old(multiset(elements[..size]))
      ensures elements[size..] == old(elements[size..])
      decreases size - index
    {
      if index * 2 + 1 < size {
        var lower := GetLowestChildOfIndex(index);
        if cmp(elements[index].priority, elements[lower].priority) > 0 {
          SwapDownStep(cmp, elements[..], size, index, lower);
          Swap(index, lower, size);
          BubbleIndexDown(lower);
        } else {
          forall c | 0 < c < size && Parent(c) == index
            ensures cmp(elements[index].priority, elements[c].priority) <= 0
          {
            Transitive(cmp, elements[index].priority, elements[lower].priority, elements[c].priority);
          }
          DownHeapDone(cmp, elements[..], size, index);
        }
      } else {
        forall c | 0 < c < size && Parent(c) == index
          ensures false
        {
          ChildrenOf(index, c);
        }
        DownHeapDone(cmp, elements[..], size, index);
      }
    }

    /**
      Appends the element and sifts it up. Writing the new element needs a
      free slot: with size == elements.Length it throws IndexOutOfRange before
      anything changes, which is `ok == false` here. A full array afterwards
      is doubled, and the stale -1 entries are dropped once the map holds
      more than 1.2 entries per live element.
    */
    method Insert(item: T, priority: K) returns (ok: bool)
      requires Valid() && !Live(item)
      modifies this, elements
      ensures Valid()
      ensures ok <==> old(size) < old(elements.Length)
      ensures !ok ==> size == old(size) && elements == old(elements) && indices == old(indices)
      ensures !ok ==> elements[..] == old(elements[..])
      ensures ok ==> size == old(size) + 1
      ensures ok ==> Contents() == old(Contents()) + multiset{Element(item, priority)}
      ensures ok ==> GetPriority(item) == Success(priority)
      ensures ok ==> elements.Length == if size == old(elements.Length) then 2 * old(elements.Length) else old(elements.Length)
      ensures ok ==> var m := old(indices)[item := old(size)];
                     SameRecords(if 5 * |m| > 6 * size then Cleaned(m) else m, indices)
    {
      if size == elements.Length {
        return false;
      }
      ghost var m := indices[item := size];
      AppendElement(Element(item, priority));
      ghost var c, mid := Contents(), indices;
      if size == elements.Length {
        GrowArray();
      }
      CleanedSameRecords(m, mid);
      if 5 * |indices| > 6 * size {
        CleanIndices();
      }
      assert Contents() == c;
      InContentsIsLive(elements[..], size, indices, Element(item, priority));
      assert GetPriority(item) == Success(priority);
      ok := true;
    }

    /** The first half of Insert: the element goes to the first free slot
        and sifts up. */
    method AppendElement(e: Element<T, K>)
      requires Valid() && !Live(e.item) && size < elements.Length
      modifies this`size, this`indices, elements
      ensures Valid() && size == old(size) + 1
      ensures Contents() == old(Contents()) + multiset{e}
      ensures SameRecords(old(indices)[e.item := old(size)], indices)
    {
      ghost var s := elements[..];
      AppendKeepsShape(cmp, s, size, indices, e);
      elements[size] := e;
      indices := indices[e.item := size];
      assert elements[..] == s[size := e];
      assert elements[..size + 1] == s[..size] + [e];
      ghost var c := multiset(s[..size]) + multiset{e};
      assert multiset(elements[..size + 1]) == c;
      BubbleIndexUp(size, size + 1);
      size := size + 1;
      assert Contents() == c;
    }

    static lemma AppendKeepsShape(cmp: (K, K) -> int, s: seq<Element<T, K>>, n: int, m: map<T, int>, e: Element<T, K>)
      requires 0 <= n < |s| && HeapOrdered(cmp, s, n) && IndexedBy(s, n, m)
      requires !(e.item in m && m[e.item] != -1)
      ensures UpHeapExcept(cmp, s[n := e], n + 1, n)
      ensures IndexedBy(s[n := e], n + 1, m[e.item := n])
    {
      forall k | 0 < k < n + 1 && Parent(k) == n && n > 0
        ensures false
      {
        ChildrenOf(n, k);
      }
    }

    static lemma InContentsIsLive(s: seq<Element<T, K>>, n: int, m: map<T, int>, e: Element<T, K>)
      requires 0 <= n <= |s| && IndexedBy(s, n, m) && e in multiset(s[..n])
      ensures e.item in m && m[e.item] != -1 && s[m[e.item]] == e
    {
      var k :| 0 <= k < n && s[..n][k] == e;
      assert s[k] == e;
    }

    /**
      Takes out the root, which compares at most every live element: the
      last live element moves to the root and sifts down, the taken item is
      recorded at -1. The array is halved once less than half of it is live,
      and the -1 entries are dropped once the map holds more than 1.2 entries
      per live element.
    */
    method GetLowest() returns (item: T, priority: K)
      requires Valid() && size > 0
      modifies this, elements
      ensures Valid()
      ensures size == old(size) - 1
      ensures old(Contents()) == Contents() + multiset{Element(item, priority)}
      ensures forall e :: e in old(Contents()) ==> cmp(priority, e.priority) <= 0
      ensures !Live(item)
      ensures item in indices ==> indices[item] == -1
      ensures elements.Length == if size < old(elements.Length) / 2 then old(elements.Length) / 2 else old(elements.Length)
      ensures var m := old(indices)[item := -1];
              SameRecords(if 5 * |m| > 6 * size then Cleaned(m) else m, indices)
    {
      ghost var m0 := indices;
      var ret := TakeRoot();
      ghost var c, mid := Contents(), indices;
      if size < elements.Length / 2 {
        ShrinkArray();
      }
      CleanedSameRecords(m0[ret.item := -1], mid);
      if 5 * |indices| > 6 * size {
        CleanIndices();
      }
      assert Contents() == c;
      AbsentItemNotLive(elements[..], size, indices, ret.item);
      item, priority := ret.item, ret.priority;
    }

    /** The first half of GetLowest: the root leaves, the last live element
        takes its place and sinks, and the root's item is recorded at -1. */
    method TakeRoot() returns (ret: Element<T, K>)
      requires Valid() && size > 0
      modifies this`size, this`indices, elements
      ensures Valid() && size == old(size) - 1
      ensures old(Contents()) == Contents() + multiset{ret}
      ensures forall e :: e in old(Contents()) ==> cmp(ret.priority, e.priority) <= 0
      ensures forall e :: e in Contents() ==> e.item != ret.item
      ensures ret.item in indices && indices[ret.item] == -1
      ensures SameRecords(old(indices)[ret.item := -1], indices)
    {
      ghost var s := elements[..];
      ghost var m := indices;
      RootIsLowest(cmp, s, size);
      ret := elements[0];
      size := size - 1;
      elements[0] := elements[size];
      if size != 0 {
        indices := indices[elements[0].item := 0];
      }
      indices := indices[ret.item := -1];
      assert elements[..] == s[0 := s[size]];
      RemovedRoot(cmp, s, size, m, indices);
      RemovedRootRecords(s, size, m, indices);
      ghost var moved := indices;
      ghost var c := Contents();
      assert c == multiset(s[0 := s[size]][..size]);
      assert old(Contents()) == c + multiset{ret};
      if size > 0 {
        BubbleIndexDown(0);
      }
      assert Contents() == c;
      SameRecordsChain(m[ret.item := -1], moved, indices);
      AbsentItemNotLive(elements[..], size, indices, ret.item);
    }

    /** GetLowest's index writes record the moved element at a slot and the
        root's item at -1, as if only the root's item had changed. */
    static lemma RemovedRootRecords(s: seq<Element<T, K>>, n: int, m: map<T, int>, m': map<T, int>)
      requires 0 <= n < |s| && IndexedBy(s, n + 1, m)
      requires m' == if n != 0 then m[s[n].item := 0][s[0].item := -1] else m[s[0].item := -1]
      ensures SameRecords(m[s[0].item := -1], m')
    {
      if n != 0 {
        assert m[s[n].item] == n;
      }
    }

    /** What GetLowest's moves do: the last live element replaces the root,
        which is no longer among the live elements. */
    static lemma RemovedRoot(cmp: (K, K) -> int, s: seq<Element<T, K>>, n: int, m: map<T, int>, m': map<T, int>)
      requires 0 <= n < |s| && HeapOrdered(cmp, s, n + 1) && IndexedBy(s, n + 1, m)
      requires m' == if n != 0 then m[s[n].item := 0][s[0].item := -1] else m[s[0].item := -1]
      ensures IndexedBy(s[0 := s[n]], n, m')
      ensures n > 0 ==> DownHeapExcept(cmp, s[0 := s[n]], n, 0)
      ensures HeapOrdered(cmp, s[0 := s[n]], n)  || n > 0
      ensures multiset(s[..n + 1]) == multiset(s[0 := s[n]][..n]) + multiset{s[0]}
      ensures forall e :: e in multiset(s[0 := s[n]][..n]) ==> e.item != s[0].item
    {
      RemovedRootIndexed(s, n, m, m');
      RemovedRootContents(s, n, m);
    }

    static lemma RemovedRootIndexed(s: seq<Element<T, K>>, n: int, m: map<T, int>, m': map<T, int>)
      requires 0 <= n < |s| && IndexedBy(s, n + 1, m)
      requires m' == if n != 0 then m[s[n].item := 0][s[0].item := -1] else m[s[0].item := -1]
      ensures IndexedBy(s[0 := s[n]], n, m')
    {
      IndexedDistinct(s, n + 1, m);
      assert forall k :: 0 <= k <= n ==> s[..n + 1][k] == s[k];
    }

    static lemma RemovedRootContents(s: seq<Element<T, K>>, n: int, m: map<T, int>)
      requires 0 <= n < |s| && IndexedBy(s, n + 1, m)
      ensures multiset(s[..n + 1]) == multiset(s[0 := s[n]][..n]) + multiset{s[0]}
      ensures forall e :: e in multiset(s[0 := s[n]][..n]) ==> e.item != s[0].item
    {
      var r := s[0 := s[n]];
      if n > 0 {
        assert s[..n + 1] == [s[0]] + s[1..n] + [s[n]];
        assert r[..n] == [s[n]] + s[1..n];
      } else {
        assert s[..n + 1] == [s[0]];
      }
      forall e | e in multiset(r[..n])
        ensures e.item != s[0].item
      {
        var k :| 0 <= k < n && r[..n][k] == e;
        assert m[s[k].item] == k;
      }
    }

    static lemma AbsentItemNotLive(s: seq<Element<T, K>>, n: int, m: map<T, int>, t: T)
      requires 0 <= n <= |s| && IndexedBy(s, n, m)
      requires forall e :: e in multiset(s[..n]) ==> e.item != t
      ensures !(t in m && m[t] != -1)
    {
      assert forall k :: 0 <= k < n ==> s[k] in multiset(s[..n]) by {
        forall k | 0 <= k < n
          ensures s[k] in multiset(s[..n])
        {
          assert s[..n][k] == s[k];
        }
      }
    }

    /** Doubles the array, keeping every slot. */
    method GrowArray()
      requires Valid()
      modifies this
      ensures Valid() && fresh(elements)
      ensures elements.Length == 2 * old(elements.Length)
      ensures elements[..old(elements.Length)] == old(elements[..])
      ensures size == old(size) && indices == old(indices) && Contents() == old(Contents())
    {
      var newElements := new Element<T, K>[elements.Length * 2];
      forall k | 0 <= k < elements.Length {
        newElements[k] := elements[k];
      }
      assert newElements[..elements.Length] == elements[..];
      assert newElements[..size] == elements[..size];
      elements := newElements;
      assert forall k :: 0 <= k < size ==> elements[k] == old(elements[k]);
      assert elements[..size] == old(elements[..size]);
    }

    /** Halves the array, keeping its first half. */
    method ShrinkArray()
      requires Valid() && size <= elements.Length / 2
      modifies this
      ensures Valid() && fresh(elements)
      ensures elements.Length == old(elements.Length) / 2
      ensures elements[..] == old(elements[..elements.Length / 2])
      ensures size == old(size) && indices == old(indices) && Contents() == old(Contents())
    {
      var newElements := new Element<T, K>[elements.Length / 2];
      forall k | 0 <= k < newElements.Length {
        newElements[k] := elements[k];
      }
      assert newElements[..] == elements[..newElements.Length];
      elements := newElements;
      assert forall k :: 0 <= k < size ==> elements[k] == old(elements[k]);
      assert elements[..size] == old(elements[..size]);
    }

    /** Drops the items recorded at -1 from the index map. */
    method CleanIndices()
      requires Valid()
      modifies this
      ensures Valid()
      ensures indices == Cleaned(old(indices))
      ensures forall t :: t in indices ==> indices[t] != -1
      ensures size == old(size) && elements == old(elements)
    {
      var newIndices: map<T, int> := map[];
      var rest := indices.Keys;
      while rest != {}
        invariant rest <= indices.Keys
        invariant forall t :: t in newIndices <==> t in indices && t !in rest && indices[t] != -1
        invariant forall t :: t in newIndices ==> newIndices[t] == indices[t]
        decreases rest
      {
        var t :| t in rest;
        if indices[t] != -1 {
          newIndices := newIndices[t := indices[t]];
        }
        rest := rest - {t};
      }
      indices := newIndices;
    }

    /** Empties the queue, keeping the array length. */
    method Clear()
      requires Valid()
      modifies this
      ensures Valid() && fresh(elements)
      ensures size == 0 && Contents() == multiset{} && indices == map[]
      ensures elements.Length == old(elements.Length)
    {
      size := 0;
      elements := new Element<T, K>[elements.Length];
      indices := map[];
    }

    /** The first loop of DeleteElementsHigherThan: copies, in order, the
        first `n` elements of `a` whose priority compares below `priority`
        into a fresh array of length `n`. */
    static method CopyBelow(cmp: (K, K) -> int, a: array<Element<T, K>>, n: int, priority: K)
      returns (newElements: array<Element<T, K>>, next: int)
      requires 0 <= n <= a.Length
      ensures fresh(newElements) && newElements.Length == n && 0 <= next <= n
      ensures newElements[..next] == KeptBelow(cmp, a[..n], priority)
    {
      newElements := new Element<T, K>[n];
      next := 0;
      for i := 0 to n
        invariant 0 <= next <= i
        invariant newElements[..next] == KeptBelow(cmp, a[..i], priority)
      {
        var el := a[i];
        assert a[..i + 1][..i] == a[..i];
        if cmp(el.priority, priority) < 0 {
          newElements[next] := el;
          assert newElements[..next + 1] == newElements[..next] + [el];
          next := next + 1;
        }
      }
    }

    /** The last loop of DeleteElementsHigherThan: records each of the
        first `n` slots under its item. */
    static method IndexSlots(a: array<Element<T, K>>, n: int) returns (m: map<T, int>)
      requires 0 <= n <= a.Length && ItemsDistinct(a[..n])
      ensures IndexedBy(a[..], n, m)
      ensures forall t :: t in m ==> m[t] != -1
    {
      m := map[];
      for i := 0 to n
        invariant forall k :: 0 <= k < i ==> a[k].item in m && m[a[k].item] == k
        invariant forall t :: t in m ==> 0 <= m[t] < i && a[m[t]].item == t
      {
        assert forall k :: 0 <= k < i ==> a[..n][k] == a[k] && a[..n][i] == a[i];
        m := m[a[i].item := i];
      }
    }

    /** Array.Sort of the first n slots by priority. */
    static method SortSlots(cmp: (K, K) -> int, a: array<Element<T, K>>, n: int)
      requires 0 <= n <= a.Length
      modifies a
      ensures a[..n] == SortByPriority(cmp, old(a[..n]))
    {
      var sorted := SortByPriority(cmp, a[..n]);
      forall k | 0 <= k < n {
        a[k] := sorted[k];
      }
      assert a[..n] == sorted;
    }

    /**
      Keeps exactly the elements whose priority compares below `priority`,
      sorted by priority in a fresh array of the old size's length, and
      rebuilds the index map from scratch. Returns how many went.

      When nothing goes, the array is exactly full, so the next Insert
      fails.
    */
    method DeleteElementsHigherThan(priority: K) returns (removed: int)
      requires Valid()
      modifies this
      ensures Valid() && fresh(elements)
      ensures Contents() == multiset(KeptBelow(cmp, old(elements[..size]), priority))
      ensures Sorted(cmp, elements[..size])
      ensures removed == old(size) - size && removed >= 0
      ensures elements.Length == old(size)
      ensures removed == 0 ==> size == elements.Length
      ensures forall t :: t in indices ==> indices[t] != -1
    {
      var origSize := size;
      ghost var live := elements[..size];
      var newElements, next := CopyBelow(cmp, elements, size, priority);
      ghost var kept := newElements[..next];
      IndexedDistinct(elements[..], size, indices);
      KeptBelowDistinct(cmp, live, priority);

      SortSlots(cmp, newElements, next);
      SortByPrioritySorted(cmp, kept);
      SortByPriorityDistinct(cmp, kept);

      var newIndices := IndexSlots(newElements, next);
      SortedSlotsHeap(cmp, newElements[..], next);

      elements := newElements;
      indices := newIndices;
      size := next;
      removed := origSize - size;
    }
  }
}
