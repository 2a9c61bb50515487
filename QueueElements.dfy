/**
  The element record of the priority queues (AbstractPriorityQueue.cs) and
  the orderings on it: an element pairs an item with its priority and is
  compared by priority alone. Priorities are compared by a caller-supplied
  `cmp`, the model of K's IComparable<K>.CompareTo; the heap is verified for
  a `cmp` that is a comparator in the sense of IsComparator.

  Also here: the stable filter and the sort that DeleteElementsHigherThan
  applies to the live elements.
*/
module QueueElements {

  /** Item is fixed at construction; the Priority setter is never used, so
      the priority is fixed too. */
  datatype Element<T, K> = Element(item: T, priority: K)

  /** Element.CompareTo: the comparison of the two priorities. */
  function CompareTo<T, K>(cmp: (K, K) -> int, e: Element<T, K>, f: Element<T, K>): (r: int)
    ensures r == cmp(e.priority, f.priority)
  {
    cmp(e.priority, f.priority)
  }

  /** The exchange of two array slots that both heaps use when they sift an
      element up or down: the two slots trade contents, the rest stay. */
  function Exchanged<T>(s: seq<T>, a: int, b: int): (r: seq<T>)
    requires 0 <= a < |s| && 0 <= b < |s|
    ensures |r| == |s| && r[a] == s[b] && r[b] == s[a]
    ensures forall k :: 0 <= k < |s| && k != a && k != b ==> r[k] == s[k]
  {
    s[a := s[b]][b := s[a]]
  }

  function Sign(x: int): int {
    if x < 0 then -1 else if x > 0 then 1 else 0
  }

  /** Swapping the arguments flips the sign of the answer. */
  ghost predicate FlipsAt<K>(cmp: (K, K) -> int, a: K, b: K) {
    Sign(cmp(a, b)) == -Sign(cmp(b, a))
  }

  /** "Compares at most" chains through b. */
  ghost predicate ChainsAt<K>(cmp: (K, K) -> int, a: K, b: K, c: K) {
    cmp(a, b) <= 0 && cmp(b, c) <= 0 ==> cmp(a, c) <= 0
  }

  /**
    What the heap needs of K's CompareTo: swapping the arguments flips the
    sign of the answer, and "compares at most" is transitive. Together these
    make "compares at most" a total preorder. The instances are reached
    through Flip and Transitive.
  */
  ghost predicate IsComparator<K(!new)>(cmp: (K, K) -> int) {
    (forall a, b {:trigger FlipsAt(cmp, a, b)} :: FlipsAt(cmp, a, b)) &&
    (forall a, b, c {:trigger ChainsAt(cmp, a, b, c)} :: ChainsAt(cmp, a, b, c))
  }

  /** Every element compares at most every later one. */
  ghost predicate Sorted<T, K>(cmp: (K, K) -> int, s: seq<Element<T, K>>) {
    forall i, j :: 0 <= i < j < |s| ==> cmp(s[i].priority, s[j].priority) <= 0
  }

  /** No item occurs twice. */
  ghost predicate ItemsDistinct<T, K>(s: seq<Element<T, K>>) {
    forall i, j :: 0 <= i < j < |s| ==> s[i].item != s[j].item
  }

  // ---------------------------------------------------------------------
  // The filter of DeleteElementsHigherThan

  /** The elements of `s` whose priority compares below `p`, in order. */
  function KeptBelow<T, K>(cmp: (K, K) -> int, s: seq<Element<T, K>>, p: K): (r: seq<Element<T, K>>)
    ensures |r| <= |s|
  {
    if s == [] then []
    else KeptBelow(cmp, s[..|s| - 1], p) + if cmp(s[|s| - 1].priority, p) < 0 then [s[|s| - 1]] else []
  }

  /** The filter keeps every element below `p`, as often as it occurs, and
      nothing else. */
  lemma {:induction false} KeptBelowExactly<T, K>(cmp: (K, K) -> int, s: seq<Element<T, K>>, p: K)
    ensures multiset(KeptBelow(cmp, s, p)) <= multiset(s)
    ensures forall x :: x in KeptBelow(cmp, s, p) ==> cmp(x.priority, p) < 0
    ensures forall i :: 0 <= i < |s| && cmp(s[i].priority, p) < 0 ==>
              multiset(KeptBelow(cmp, s, p))[s[i]] == multiset(s)[s[i]]
  {
    if s != [] {
      var init := s[..|s| - 1];
      var last := s[|s| - 1];
      assert s == init + [last];
      KeptBelowExactly(cmp, init, p);
      forall i | 0 <= i < |s| && cmp(s[i].priority, p) < 0
        ensures multiset(KeptBelow(cmp, s, p))[s[i]] == multiset(s)[s[i]]
      {
        if i < |s| - 1 {
          assert s[i] == init[i];
        }
      }
    }
  }

  lemma {:induction false} KeptBelowDistinct<T, K>(cmp: (K, K) -> int, s: seq<Element<T, K>>, p: K)
    requires ItemsDistinct(s)
    ensures ItemsDistinct(KeptBelow(cmp, s, p))
  {
    if s != [] {
      var init := s[..|s| - 1];
      var last := s[|s| - 1];
      var r := KeptBelow(cmp, init, p);
      KeptBelowDistinct(cmp, init, p);
      KeptBelowExactly(cmp, init, p);
      forall x | x in r
        ensures x.item != last.item
      {
        assert x in multiset(r);
        assert x in init;
      }
    }
  }

  // ---------------------------------------------------------------------
  // The sort (Array.Sort by priority)

  /** Puts `e` before the first element it compares at most. */
  function InsertSorted<T, K>(cmp: (K, K) -> int, e: Element<T, K>, s: seq<Element<T, K>>): (r: seq<Element<T, K>>)
    ensures |r| == |s| + 1
    ensures multiset(r) == multiset(s) + multiset{e}
  {
    if s == [] then [e]
    else if cmp(e.priority, s[0].priority) <= 0 then [e] + s
    else
      assert s == [s[0]] + s[1..];
      [s[0]] + InsertSorted(cmp, e, s[1..])
  }

  function SortByPriority<T, K>(cmp: (K, K) -> int, s: seq<Element<T, K>>): (r: seq<Element<T, K>>)
    ensures |r| == |s|
    ensures multiset(r) == multiset(s)
  {
    if s == [] then []
    else
      assert s == [s[0]] + s[1..];
      InsertSorted(cmp, s[0], SortByPriority(cmp, s[1..]))
  }

  lemma Transitive<K(!new)>(cmp: (K, K) -> int, a: K, b: K, c: K)
    requires IsComparator(cmp) && cmp(a, b) <= 0 && cmp(b, c) <= 0
    ensures cmp(a, c) <= 0
  {
    assert ChainsAt(cmp, a, b, c);
  }

  lemma Flip<K(!new)>(cmp: (K, K) -> int, a: K, b: K)
    requires IsComparator(cmp)
    ensures cmp(a, b) > 0 ==> cmp(b, a) < 0
    ensures cmp(a, b) >= 0 ==> cmp(b, a) <= 0
    ensures cmp(a, a) == 0
  {
    assert FlipsAt(cmp, a, b) && FlipsAt(cmp, a, a);
  }

  lemma {:induction false} InsertSortedSorted<T, K(!new)>(cmp: (K, K) -> int, e: Element<T, K>, s: seq<Element<T, K>>)
    requires IsComparator(cmp) && Sorted(cmp, s)
    ensures Sorted(cmp, InsertSorted(cmp, e, s))
  {
    if s == [] {
    } else if cmp(e.priority, s[0].priority) <= 0 {
      InsertFrontSorted(cmp, e, s);
    } else {
      InsertSortedSorted(cmp, e, s[1..]);
      Flip(cmp, e.priority, s[0].priority);
      InsertBehindSorted(cmp, e, s);
    }
  }

  lemma InsertFrontSorted<T, K(!new)>(cmp: (K, K) -> int, e: Element<T, K>, s: seq<Element<T, K>>)
    requires IsComparator(cmp) && Sorted(cmp, s) && s != [] && cmp(e.priority, s[0].priority) <= 0
    ensures Sorted(cmp, [e] + s)
  {
    var r := [e] + s;
    forall i, j | 0 <= i < j < |r|
      ensures cmp(r[i].priority, r[j].priority) <= 0
    {
      if i == 0 && j > 1 {
        Transitive(cmp, e.priority, s[0].priority, s[j - 1].priority);
      }
    }
  }

  /** What the insertion holds: `e` and the elements of `s`. */
  lemma InsertSortedMembers<T, K>(cmp: (K, K) -> int, e: Element<T, K>, s: seq<Element<T, K>>)
    ensures forall x :: x in InsertSorted(cmp, e, s) ==> x == e || x in s
  {
    forall x | x in InsertSorted(cmp, e, s)
      ensures x == e || x in s
    {
      assert x in multiset(InsertSorted(cmp, e, s));
    }
  }

  /** A head no greater than anything behind it keeps a sorted sequence sorted. */
  lemma ConsSorted<T, K>(cmp: (K, K) -> int, h: Element<T, K>, t: seq<Element<T, K>>)
    requires Sorted(cmp, t)
    requires forall x :: x in t ==> cmp(h.priority, x.priority) <= 0
    ensures Sorted(cmp, [h] + t)
  {
    var r := [h] + t;
    forall i, j | 0 <= i < j < |r|
      ensures cmp(r[i].priority, r[j].priority) <= 0
    {
      assert r[j] == t[j - 1];
      if 0 < i {
        assert r[i] == t[i - 1];
      }
    }
  }

  lemma InsertBehindSorted<T, K>(cmp: (K, K) -> int, e: Element<T, K>, s: seq<Element<T, K>>)
    requires s != [] && cmp(s[0].priority, e.priority) <= 0
    requires Sorted(cmp, s) && Sorted(cmp, InsertSorted(cmp, e, s[1..]))
    ensures Sorted(cmp, [s[0]] + InsertSorted(cmp, e, s[1..]))
  {
    var t := InsertSorted(cmp, e, s[1..]);
    InsertSortedMembers(cmp, e, s[1..]);
    forall x | x in t
      ensures cmp(s[0].priority, x.priority) <= 0
    {
      if x != e {
        var k :| 0 <= k < |s| - 1 && s[1..][k] == x;
        assert s[k + 1] == x;
      }
    }
    ConsSorted(cmp, s[0], t);
  }

  /** The sort orders by priority. */
  lemma {:induction false} SortByPrioritySorted<T, K(!new)>(cmp: (K, K) -> int, s: seq<Element<T, K>>)
    requires IsComparator(cmp)
    ensures Sorted(cmp, SortByPriority(cmp, s))
  {
    if s != [] {
      SortByPrioritySorted(cmp, s[1..]);
      InsertSortedSorted(cmp, s[0], SortByPriority(cmp, s[1..]));
    }
  }

  /** A head whose item is not behind it keeps the items distinct. */
  lemma ConsDistinct<T, K>(h: Element<T, K>, t: seq<Element<T, K>>)
    requires ItemsDistinct(t) && forall x :: x in t ==> x.item != h.item
    ensures ItemsDistinct([h] + t)
  {
    var r := [h] + t;
    forall i, j | 0 <= i < j < |r|
      ensures r[i].item != r[j].item
    {
      assert r[j] == t[j - 1];
      if 0 < i {
        assert r[i] == t[i - 1];
      }
    }
  }

  lemma {:induction false} InsertSortedDistinct<T, K>(cmp: (K, K) -> int, e: Element<T, K>, s: seq<Element<T, K>>)
    requires ItemsDistinct(s) && forall x :: x in s ==> x.item != e.item
    ensures ItemsDistinct(InsertSorted(cmp, e, s))
  {
    if s == [] || cmp(e.priority, s[0].priority) <= 0 {
      ConsDistinct(e, s);
    } else {
      var t := InsertSorted(cmp, e, s[1..]);
      InsertSortedDistinct(cmp, e, s[1..]);
      InsertSortedMembers(cmp, e, s[1..]);
      forall x | x in t
        ensures x.item != s[0].item
      {
        if x != e {
          var k :| 0 <= k < |s| - 1 && s[1..][k] == x;
          assert s[k + 1] == x;
        }
      }
      ConsDistinct(s[0], t);
    }
  }


  /** The sort moves elements without duplicating any item. */
  lemma {:induction false} SortByPriorityDistinct<T, K>(cmp: (K, K) -> int, s: seq<Element<T, K>>)
    requires ItemsDistinct(s)
    ensures ItemsDistinct(SortByPriority(cmp, s))
  {
    if s != [] {
      var t := SortByPriority(cmp, s[1..]);
      SortByPriorityDistinct(cmp, s[1..]);
      forall x | x in t
        ensures x.item != s[0].item
      {
        assert x in multiset(s[1..]);
      }
      InsertSortedDistinct(cmp, s[0], t);
    }
  }

  /** The comparison of two elements does not look at their items. */
  lemma CompareToIgnoresItems<T, K>(cmp: (K, K) -> int, e: Element<T, K>, f: Element<T, K>, x: T, y: T)
    ensures CompareTo(cmp, e, f) == CompareTo(cmp, Element(x, e.priority), Element(y, f.priority))
  {
  }
}
