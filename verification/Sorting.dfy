/** Heap sort with 1-based indexes, and binary search, for any comparison function. */
module Sorting {

  /** A comparison as strcmp() makes it. */
  datatype Order = Order(compare: (int, int) -> int) {
    predicate Leq(a: int, b: int) {
      compare(a, b) <= 0
    }

    /** The comparison is a total preorder. */
    ghost predicate Ok() {
      && (forall a, b :: compare(a, b) > 0 <==> compare(b, a) < 0)
      && (forall a, b, c | Leq(a, b) && Leq(b, c) :: Leq(a, c))
    }
  }

  lemma Reflexive(o: Order, a: int)
    requires o.Ok()
    ensures o.Leq(a, a)
  {
    assert o.compare(a, a) > 0 <==> o.compare(a, a) < 0;
  }

  lemma Reversed(o: Order, a: int, b: int)
    requires o.Ok() && !o.Leq(a, b)
    ensures o.Leq(b, a)
  {
    assert o.compare(a, b) > 0 <==> o.compare(b, a) < 0;
  }

  lemma Transitive(o: Order, a: int, b: int, c: int)
    requires o.Ok() && o.Leq(a, b) && o.Leq(b, c)
    ensures o.Leq(a, c)
  {
  }

  ghost predicate Sorted(o: Order, s: seq<int>) {
    forall i, j | 0 <= i < j < |s| :: o.Leq(s[i], s[j])
  }

  /** Among the first N elements, counted from 1, no child of an element from LO on is larger than its parent. */
  ghost predicate Heap(o: Order, s: seq<int>, lo: int, n: int) {
    n <= |s| && forall c | 2 <= c <= n && lo <= c / 2 :: o.Leq(s[c - 1], s[c / 2 - 1])
  }

  /** The same, but element I may be smaller than its children; they are no larger than its parent. */
  ghost predicate AlmostHeap(o: Order, s: seq<int>, lo: int, n: int, i: int) {
    && 1 <= lo <= i <= n <= |s|
    && (forall c | 2 <= c <= n && lo <= c / 2 && c / 2 != i :: o.Leq(s[c - 1], s[c / 2 - 1]))
    && (forall c | 2 <= c <= n && c / 2 == i && lo <= i / 2 :: o.Leq(s[c - 1], s[i / 2 - 1]))
  }

  function Swapped(s: seq<int>, i: int, j: int): (r: seq<int>)
    requires 0 <= i < |s| && 0 <= j < |s|
    ensures |r| == |s|
  {
    s[i := s[j]][j := s[i]]
  }

  lemma SwappedSame(s: seq<int>, i: int, j: int)
    requires 0 <= i < |s| && 0 <= j < |s|
    ensures multiset(Swapped(s, i, j)) == multiset(s)
  {
  }

  /** M is I or a child of I, and no child is larger. */
  ghost predicate Largest(o: Order, s: seq<int>, n: int, i: int, m: int) {
    && 1 <= i <= n <= |s| && 1 <= m <= n && (m == i || m / 2 == i)
    && o.Leq(s[i - 1], s[m - 1]) && forall c | 2 <= c <= n && c / 2 == i :: o.Leq(s[c - 1], s[m - 1])
  }

  /** Exchanging an element with its largest child moves the flaw down. */
  lemma FloatDown(o: Order, s: seq<int>, lo: int, n: int, i: int, m: int)
    requires o.Ok() && AlmostHeap(o, s, lo, n, i) && Largest(o, s, n, i, m) && m != i
    ensures AlmostHeap(o, Swapped(s, i - 1, m - 1), lo, n, m)
  {
    var s' := Swapped(s, i - 1, m - 1);
    assert m / 2 == i && i < m;
    forall c | 2 <= c <= n && lo <= c / 2 && c / 2 != m
      ensures o.Leq(s'[c - 1], s'[c / 2 - 1])
    {
      if c / 2 == i {
        assert s'[c / 2 - 1] == s[m - 1];
        assert o.Leq(s[c - 1], s[m - 1]);
      } else if c == i {
        assert s'[c - 1] == s[m - 1] && s'[i / 2 - 1] == s[i / 2 - 1];
      } else {
        assert s'[c - 1] == s[c - 1] && s'[c / 2 - 1] == s[c / 2 - 1];
      }
    }
    forall c | 2 <= c <= n && c / 2 == m
      ensures o.Leq(s'[c - 1], s'[m / 2 - 1])
    {
      assert s'[c - 1] == s[c - 1] && s'[i - 1] == s[m - 1];
    }
  }

  lemma Floated(o: Order, s: seq<int>, lo: int, n: int, i: int)
    requires AlmostHeap(o, s, lo, n, i) && Largest(o, s, n, i, i)
    ensures Heap(o, s, lo, n)
  {
  }

  /** The first element of a heap is the largest. */
  lemma {:induction false} TopLargest(o: Order, s: seq<int>, n: int, k: int)
    requires o.Ok() && Heap(o, s, 1, n) && 1 <= k <= n
    ensures o.Leq(s[k - 1], s[0])
    decreases k
  {
    if k > 1 {
      TopLargest(o, s, n, k / 2);
    } else {
      Reflexive(o, s[0]);
    }
  }

  method DoSwap(a: array<int>, i: nat, j: nat)
    requires 1 <= i <= a.Length && 1 <= j <= a.Length
    modifies a
    ensures a[..] == Swapped(old(a[..]), i - 1, j - 1)
  {
    a[i - 1], a[j - 1] := a[j - 1], a[i - 1];
  }

  /** The elements from CNT on are as in WAS, and the others are those of WAS in some order. */
  ghost predicate PrefixOnly(was: seq<int>, s: seq<int>, cnt: int) {
    && |s| == |was| && 0 <= cnt <= |s|
    && multiset(s) == multiset(was) && s[cnt..] == was[cnt..]
    && forall k | 0 <= k < cnt :: s[k] in was[..cnt]
  }

  lemma SwapPrefix(was: seq<int>, s: seq<int>, cnt: int, i: int, j: int)
    requires PrefixOnly(was, s, cnt) && 0 <= i < cnt && 0 <= j < cnt
    ensures PrefixOnly(was, Swapped(s, i, j), cnt)
  {
    SwappedSame(s, i, j);
    assert Swapped(s, i, j)[cnt..] == s[cnt..];
  }

  method Heapify(o: Order, a: array<int>, start: nat, cnt: nat)
    requires o.Ok() && 1 <= start <= cnt <= a.Length && Heap(o, a[..], start + 1, cnt)
    modifies a
    ensures Heap(o, a[..], start, cnt) && PrefixOnly(old(a[..]), a[..], cnt)
  {
    hide Heap, AlmostHeap, Swapped, PrefixOnly, Largest;
    var i := start;
    AlmostStart(o, a[..], start, cnt);
    SamePrefix(a[..], cnt);
    while true
      invariant start <= i <= cnt
      invariant AlmostHeap(o, a[..], start, cnt, i) && PrefixOnly(old(a[..]), a[..], cnt)
      decreases cnt - i
    {
      var max := LargestOf(o, a, i, cnt);
      if max == i {
        Floated(o, a[..], start, cnt, i);
        break;
      }
      LargestBelow(o, a[..], cnt, i, max);
      FloatDown(o, a[..], start, cnt, i, max);
      SwapPrefix(old(a[..]), a[..], cnt, i - 1, max - 1);
      DoSwap(a, i, max);
      i := max;
    }
  }

  lemma LargestBelow(o: Order, s: seq<int>, n: int, i: int, m: int)
    requires Largest(o, s, n, i, m) && m != i
    ensures i < m <= n
  {
  }

  lemma SamePrefix(s: seq<int>, cnt: int)
    requires 0 <= cnt <= |s|
    ensures PrefixOnly(s, s, cnt)
  {
  }

  lemma AlmostStart(o: Order, s: seq<int>, i: int, n: int)
    requires 1 <= i <= n && Heap(o, s, i + 1, n)
    ensures AlmostHeap(o, s, i, n, i)
  {
  }

  /** The index of the largest of element I and its children. */
  method LargestOf(o: Order, a: array<int>, i: nat, cnt: nat) returns (max: nat)
    requires o.Ok() && 1 <= i <= cnt <= a.Length
    ensures Largest(o, a[..], cnt, i, max)
  {
    var left, right := 2 * i, 2 * i + 1;
    max := i;
    Reflexive(o, a[i - 1]);
    if left <= cnt && o.compare(a[left - 1], a[max - 1]) > 0 {
      Reversed(o, a[left - 1], a[i - 1]);
      Reflexive(o, a[left - 1]);
      max := left;
    }
    if right <= cnt && o.compare(a[right - 1], a[max - 1]) > 0 {
      Reversed(o, a[right - 1], a[max - 1]);
      Transitive(o, a[i - 1], a[max - 1], a[right - 1]);
      if left <= cnt {
        Transitive(o, a[left - 1], a[max - 1], a[right - 1]);
      }
      Reflexive(o, a[right - 1]);
      max := right;
    }
    assert forall c | 2 <= c <= cnt && c / 2 == i :: c == left || c == right;
  }

  /** The elements from N on are in their final places. */
  ghost predicate Tail(o: Order, s: seq<int>, n: int) {
    forall p, q | 0 <= p < q < |s| && n <= q :: o.Leq(s[p], s[q])
  }

  /** The top of the heap belongs right before the elements already in place. */
  lemma TopToTail(o: Order, s: seq<int>, n: int)
    requires o.Ok() && Heap(o, s, 1, n) && Tail(o, s, n) && 2 <= n <= |s|
    ensures var s' := Swapped(s, 0, n - 1); Tail(o, s', n - 1) && Heap(o, s', 2, n - 1)
  {
    var s' := Swapped(s, 0, n - 1);
    forall p, q | 0 <= p < q < |s| && n - 1 <= q
      ensures o.Leq(s'[p], s'[q])
    {
      if q == n - 1 {
        TopLargest(o, s, n, if p == 0 then n else p + 1);
      } else {
        assert s'[q] == s[q];
        assert s'[p] == s[if p == 0 then n - 1 else if p == n - 1 then 0 else p];
      }
    }
    forall c | 2 <= c <= n - 1 && 2 <= c / 2
      ensures o.Leq(s'[c - 1], s'[c / 2 - 1])
    {
      assert s'[c - 1] == s[c - 1] && s'[c / 2 - 1] == s[c / 2 - 1];
    }
  }

  lemma TailKept(o: Order, was: seq<int>, s: seq<int>, n: int)
    requires Tail(o, was, n) && PrefixOnly(was, s, n)
    ensures Tail(o, s, n)
  {
    assert forall k | n <= k < |s| :: s[k] == was[n..][k - n] && s[n..][k - n] == s[k];
    forall p, q | 0 <= p < q < |s| && n <= q
      ensures o.Leq(s[p], s[q])
    {
      assert s[q] == was[q];
      if p < n {
        var j :| 0 <= j < n && was[..n][j] == s[p];
        assert was[j] == s[p];
      } else {
        assert s[p] == was[p];
      }
    }
  }

  /** Sorts the array in place. */
  method Sort(o: Order, a: array<int>)
    requires o.Ok()
    modifies a
    ensures Sorted(o, a[..]) && multiset(a[..]) == multiset(old(a[..]))
  {
    hide Heap, Tail, Swapped;
    var cnt := a.Length;
    var i := cnt / 2;
    NoParents(o, a[..], i + 1);
    while i > 0
      invariant 0 <= i <= cnt / 2
      invariant Heap(o, a[..], i + 1, cnt) && multiset(a[..]) == multiset(old(a[..]))
    {
      Heapify(o, a, i, cnt);
      i := i - 1;
    }
    i := cnt;
    NoTail(o, a[..]);
    while i > 1
      invariant cnt > 0 ==> 1 <= i <= cnt
      invariant Heap(o, a[..], 1, i) && Tail(o, a[..], i) && multiset(a[..]) == multiset(old(a[..]))
    {
      TopToTail(o, a[..], i);
      SwappedSame(a[..], 0, i - 1);
      DoSwap(a, 1, i);
      ghost var was := a[..];
      Heapify(o, a, 1, i - 1);
      TailKept(o, was, a[..], i - 1);
      i := i - 1;
    }
    TailSorted(o, a[..], i);
  }

  lemma NoParents(o: Order, s: seq<int>, lo: int)
    requires lo == |s| / 2 + 1
    ensures Heap(o, s, lo, |s|)
  {
  }

  lemma NoTail(o: Order, s: seq<int>)
    ensures Tail(o, s, |s|)
  {
  }

  lemma TailSorted(o: Order, s: seq<int>, n: int)
    requires n <= 1 && Tail(o, s, n)
    ensures Sorted(o, s)
  {
  }

  datatype Match = NoMatch | Match(idx: nat)

  /** Finds an element that compares equal to KEY in a sorted array. */
  method BinarySearch(o: Order, key: int, a: array<int>) returns (r: Match)
    requires o.Ok() && Sorted(o, a[..])
    ensures match r
            case NoMatch => forall k | 0 <= k < a.Length :: o.compare(key, a[k]) != 0
            case Match(i) => i < a.Length && o.compare(key, a[i]) == 0
  {
    var first, last := 0, a.Length;
    while first < last
      invariant 0 <= first <= last <= a.Length
      invariant forall k | 0 <= k < a.Length && !(first <= k < last) :: o.compare(key, a[k]) != 0
    {
      var middle := first + (last - first) / 2;
      var cmp := o.compare(key, a[middle]);
      if cmp < 0 {
        forall k | middle <= k < a.Length
          ensures o.compare(key, a[k]) != 0
        {
          KeyBelow(o, key, a[..], middle, k);
        }
        last := middle;
      } else if cmp > 0 {
        forall k | 0 <= k <= middle
          ensures o.compare(key, a[k]) != 0
        {
          KeyAbove(o, key, a[..], middle, k);
        }
        first := middle + 1;
      } else {
        return Match(middle);
      }
    }
    return NoMatch;
  }

  lemma KeyBelow(o: Order, key: int, s: seq<int>, m: int, k: int)
    requires o.Ok() && Sorted(o, s) && 0 <= m <= k < |s| && o.compare(key, s[m]) < 0
    ensures o.compare(key, s[k]) != 0
  {
    var x, y := s[m], s[k];
    assert o.compare(y, key) < 0 <==> o.compare(key, y) > 0;
    assert o.compare(y, key) > 0 <==> o.compare(key, y) < 0;
    assert o.compare(x, key) > 0 <==> o.compare(key, x) < 0;
    if o.compare(key, y) == 0 && m < k {
      Transitive(o, x, y, key);
    }
  }

  lemma KeyAbove(o: Order, key: int, s: seq<int>, m: int, k: int)
    requires o.Ok() && Sorted(o, s) && 0 <= k <= m < |s| && o.compare(key, s[m]) > 0
    ensures o.compare(key, s[k]) != 0
  {
    var x, y := s[m], s[k];
    if o.compare(key, y) == 0 && k < m {
      Transitive(o, key, y, x);
    }
  }
}
