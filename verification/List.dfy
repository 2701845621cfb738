/** Intrusive doubly linked lists with a head and a tail element, and their in-place natural merge sort. */
module List {
  import opened Common
  import opened NaturalMerge

  class Elem {
    var prev: Elem?
    var next: Elem?
  }

  ghost predicate Within<X>(s: seq<X>, t: set<X>) {
    forall i | 0 <= i < |s| :: s[i] in t
  }

  /** A and B are neighbours. */
  ghost predicate Adjacent(a: Elem, b: Elem)
    reads a, b
  {
    a.next == b && b.prev == a
  }

  /** Each element's links lead to its neighbours in C. */
  ghost predicate Linked(c: seq<Elem>)
    reads c
  {
    forall i | 0 <= i < |c| - 1 :: Adjacent(c[i], c[i + 1])
  }

  /** C with the stretch from I to J moved before place K. */
  ghost function Moved<X>(c: seq<X>, k: nat, i: nat, j: nat): (r: seq<X>)
    requires k <= i <= j <= |c|
  {
    c[..k] + c[i..j] + c[k..i] + c[j..]
  }

  lemma MovedNothing<X>(c: seq<X>, k: nat, i: nat)
    requires k <= |c| && i <= |c|
    ensures k < i ==> Moved(c, k, i, i) == c
    ensures i <= k ==> Moved(c, i, i, k) == c && Moved(c, i, k, k) == c
  {
  }

  lemma SamePlace<X>(c: seq<X>, i: nat, j: nat)
    requires Distinct(c) && i <= j < |c| && c[i] == c[j]
    ensures i == j
  {
  }

  lemma MovedDistinct<X>(c: seq<X>, k: nat, i: nat, j: nat)
    requires 0 < k <= i <= j < |c| && Distinct(c)
    ensures Distinct(Moved(c, k, i, j)) && |Moved(c, k, i, j)| == |c|
    ensures Moved(c, k, i, j)[0] == c[0] && Moved(c, k, i, j)[|c| - 1] == c[|c| - 1]
    ensures forall t | 0 <= t < |c| :: Moved(c, k, i, j)[t] in c
  {
  }

  /** Three new neighbourhoods are all it takes to move a stretch. */
  lemma MovedLinked(c: seq<Elem>, k: nat, i: nat, j: nat)
    requires 0 < k < i < j < |c|
    requires forall t | 0 <= t < |c| - 1 && t != k - 1 && t != i - 1 && t != j - 1 :: Adjacent(c[t], c[t + 1])
    requires Adjacent(c[k - 1], c[i]) && Adjacent(c[j - 1], c[k]) && Adjacent(c[i - 1], c[j])
    ensures Linked(Moved(c, k, i, j))
  {
    var m := Moved(c, k, i, j);
    forall t | 0 <= t < |m| - 1
      ensures Adjacent(m[t], m[t + 1])
    {
      if t < k - 1 || j <= t {
        assert m[t] == c[t] && m[t + 1] == c[t + 1];
      } else if k <= t < k + j - i - 1 {
        assert m[t] == c[t - k + i] && m[t + 1] == c[t - k + i + 1];
      } else if k + j - i <= t < j - 1 {
        assert m[t] == c[t - (j - i)] && m[t + 1] == c[t - (j - i) + 1];
      }
    }
  }

  lemma RunEndStep<X, K(!new)>(o: Order<X, K>, s: seq<X>, q: nat)
    requires 0 < q <= |s|
    ensures RunEnd(o, s, q - 1) == if q == |s| || o.Less(s[q], s[q - 1]) then q else RunEnd(o, s, q)
  {
  }

  /** What becomes of S when the stretches from I to J and from J to E are merged. */
  ghost function Merging<X, K(!new)>(o: Order<X, K>, s: seq<X>, i: nat, j: nat, e: nat): seq<X>
    requires i <= j <= e <= |s|
  {
    s[..i] + Merge(o, s[i..j], s[j..e]) + s[e..]
  }

  lemma MergingFirst<X, K(!new)>(o: Order<X, K>, s: seq<X>, i: nat, j: nat, e: nat)
    requires i < j < e <= |s| && !o.Less(s[j], s[i])
    ensures Merging(o, s, i + 1, j, e) == Merging(o, s, i, j, e)
  {
    var x, y := s[i..j], s[j..e];
    assert Merge(o, x, y) == [x[0]] + Merge(o, x[1..], y);
    hide Merge;
    assert x[1..] == s[i + 1..j];
    assert s[..i + 1] == s[..i] + [x[0]];
    assert s[..i] + [x[0]] + Merge(o, x[1..], y) == s[..i] + ([x[0]] + Merge(o, x[1..], y));
  }

  lemma MergingSecond<X, K(!new)>(o: Order<X, K>, s: seq<X>, i: nat, j: nat, e: nat)
    requires i < j < e <= |s| && o.Less(s[j], s[i])
    ensures Merging(o, Moved(s, i, j, j + 1), i + 1, j + 1, e) == Merging(o, s, i, j, e)
  {
    var x, y := s[i..j], s[j..e];
    var s' := Moved(s, i, j, j + 1);
    assert y[1..] == s[j + 1..e];
    assert Merge(o, x, y) == [y[0]] + Merge(o, x, y[1..]);
    assert s'[..i + 1] == s[..i] + [y[0]];
    assert s'[i + 1..j + 1] == x && s'[j + 1..e] == y[1..] && s'[e..] == s[e..];
  }

  /** Moving one element within a chain, seen from its interior. */
  lemma MovedOne<X>(c: seq<X>, i: nat, j: nat, e: nat)
    requires i < j < e < |c| - 1
    ensures |Moved(c, i + 1, j + 1, j + 2)| == |c|
    ensures Moved(c, i + 1, j + 1, j + 2)[1..|c| - 1] == Moved(c[1..|c| - 1], i, j, j + 1)
    ensures Moved(c, i + 1, j + 1, j + 2)[i + 2] == c[i + 1]
    ensures Moved(c, i + 1, j + 1, j + 2)[j + 2] == c[j + 2]
    ensures Moved(c, i + 1, j + 1, j + 2)[e + 1] == c[e + 1]
  {
    var d := c[1..|c| - 1];
    var r, n := Moved(c, i + 1, j + 1, j + 2), Moved(d, i, j, j + 1);
    assert |r| == |c| && |n| == |d|;
    forall t | 0 <= t < |d|
      ensures r[t + 1] == n[t]
    {
      MovedAt(c, i + 1, j + 1, j + 2, t + 1);
      MovedAt(d, i, j, j + 1, t);
    }
    assert r[1..|c| - 1] == n;
  }

  lemma MovedAt<X>(c: seq<X>, k: nat, i: nat, j: nat, t: nat)
    requires k <= i <= j <= |c| && t < |c|
    ensures |Moved(c, k, i, j)| == |c|
    ensures Moved(c, k, i, j)[t]
            == if t < k || j <= t then c[t] else if t < k + (j - i) then c[t - k + i] else c[t - (j - i)]
  {
  }

  lemma MergingDone<X, K(!new)>(o: Order<X, K>, s: seq<X>, i: nat, j: nat, e: nat)
    requires i <= j <= e <= |s| && (i == j || j == e)
    ensures Merging(o, s, i, j, e) == s
  {
  }

  ghost predicate EarliestMax<X, K(!new)>(o: Order<X, K>, s: seq<X>, p: nat) {
    && p < |s|
    && (forall i | 0 <= i < |s| :: !o.Less(s[p], s[i]))
    && (forall i | 0 <= i < p :: o.Less(s[i], s[p]))
  }

  lemma EarliestMaxStart<X, K(!new)>(o: Order<X, K>, s: seq<X>)
    requires o.StrictWeak() && s != []
    ensures EarliestMax(o, s[..1], 0)
  {
  }

  lemma EarliestMaxStep<X, K(!new)>(o: Order<X, K>, s: seq<X>, p: nat, q: nat)
    requires o.StrictWeak() && q < |s| && EarliestMax(o, s[..q], p)
    ensures EarliestMax(o, s[..q + 1], if o.Less(s[p], s[q]) then q else p)
  {
    if o.Less(s[p], s[q]) {
      forall i | 0 <= i < q
        ensures o.Less(s[i], s[q])
      {
        assert !o.Less(s[..q][p], s[..q][i]);
        if !o.Less(s[i], s[q]) {
          // q is not after i, which is not after p
          o.NotAfterTrans(o.key(s[q]), o.key(s[i]), o.key(s[p]));
        }
      }
    } else {
      assert forall i | 0 <= i < p :: o.Less(s[..q][i], s[..q][p]);
      assert forall i | 0 <= i < q :: !o.Less(s[..q][p], s[..q][i]);
    }
  }

  ghost function Reversed<X>(s: seq<X>): seq<X> {
    seq(|s|, i requires 0 <= i < |s| => s[|s| - 1 - i])
  }

  /** The links of the elements before place Q, but for the first, are exchanged. */
  ghost predicate Turned(c: seq<Elem>, q: nat)
    reads c
    requires 1 <= q < |c|
  {
    && (forall t | 1 <= t < q :: c[t].next == c[t - 1])
    && (forall t | 1 <= t < q :: c[t].prev == c[t + 1])
    && (forall t | q <= t < |c| - 1 :: c[t].next == c[t + 1])
    && (forall t | q <= t < |c| :: c[t].prev == c[t - 1])
    && c[0].next == c[1] && c[0].prev == null && c[|c| - 1].next == null
  }

  /** C with all but its first and its last element turned around. */
  ghost function Backwards<X>(c: seq<X>): seq<X>
    requires |c| >= 2
  {
    seq(|c|, t requires 0 <= t < |c| => if 0 < t < |c| - 1 then c[|c| - 1 - t] else c[t])
  }

  lemma BackwardsElems<X>(c: seq<X>)
    requires |c| >= 2
    ensures Backwards(c)[1..|c| - 1] == Reversed(c[1..|c| - 1])
    ensures |c| == 2 ==> Backwards(c) == c
  {
  }

  /** All inner links exchanged, and the four outer ones set. */
  lemma TurnedRound(c: seq<Elem>, nodes: set<Elem>)
    requires |c| >= 3 && Distinct(c) && Within(c, nodes)
    requires forall t | 1 < t < |c| - 1 :: c[t].next == c[t - 1]
    requires forall t | 1 <= t < |c| - 2 :: c[t].prev == c[t + 1]
    requires c[0].next == c[|c| - 2] && c[|c| - 2].prev == c[0]
    requires c[1].next == c[|c| - 1] && c[|c| - 1].prev == c[1]
    ensures Linked(Backwards(c)) && Distinct(Backwards(c)) && Within(Backwards(c), nodes)
  {
    var d, n := Backwards(c), |c|;
    forall t | 0 <= t < n - 1
      ensures Adjacent(d[t], d[t + 1])
    {
      if 0 < t < n - 2 {
        assert d[t] == c[n - 1 - t] && d[t + 1] == c[n - 1 - t - 1];
        assert c[n - 1 - t - 1].prev == c[n - 1 - t - 1 + 1];
      }
    }
  }

  /** What a pass that has come to place P will leave. */
  ghost function Passing<X, K(!new)>(o: Order<X, K>, s: seq<X>, p: nat): seq<X>
    requires p <= |s|
  {
    s[..p] + Pass(o, s[p..])
  }

  lemma PassingStart<X, K(!new)>(o: Order<X, K>, s: seq<X>)
    ensures Passing(o, s, 0) == Pass(o, s) && s[0..] == s
  {
  }

  lemma PassingEnd<X, K(!new)>(o: Order<X, K>, s: seq<X>)
    ensures Passing(o, s, |s|) == s && PassRuns(o, s[|s|..]) == 0
  {
  }

  lemma PassingLast<X, K(!new)>(o: Order<X, K>, s: seq<X>, p: nat)
    requires p < |s| && RunEnd(o, s, p) == |s|
    ensures Passing(o, s, p) == Passing(o, s, |s|)
    ensures PassRuns(o, s[p..]) == 1 && PassRuns(o, s[|s|..]) == 0
  {
    RunEndShift(o, s, p, 0);
  }

  lemma PassingStep<X, K(!new)>(o: Order<X, K>, s: seq<X>, p: nat, m: nat, e: nat)
    requires p < m < e <= |s| && m == RunEnd(o, s, p) && e == RunEnd(o, s, m)
    ensures Ascending(o, s[p..m]) && Ascending(o, s[m..e])
    ensures |Merging(o, s, p, m, e)| == |s|
    ensures Passing(o, Merging(o, s, p, m, e), e) == Passing(o, s, p)
    ensures PassRuns(o, s[p..]) == 1 + PassRuns(o, Merging(o, s, p, m, e)[e..])
  {
    hide RunEnd, Merge, Pass, PassRuns;
    PassAt(o, s, p, m, e);
    MergedStretch(s, Merge(o, s[p..m], s[m..e]), p, e);
    assert s[..p] + (Merge(o, s[p..m], s[m..e]) + Pass(o, s[e..]))
           == s[..p] + Merge(o, s[p..m], s[m..e]) + Pass(o, s[e..]);
  }

  lemma MergedStretch<X>(s: seq<X>, x: seq<X>, p: nat, e: nat)
    requires p <= e <= |s| && |x| == e - p
    ensures var r := s[..p] + x + s[e..]; |r| == |s| && r[..e] == s[..p] + x && r[e..] == s[e..]
  {
  }

  lemma PassAt<X, K(!new)>(o: Order<X, K>, s: seq<X>, p: nat, m: nat, e: nat)
    requires p < m < e <= |s| && m == RunEnd(o, s, p) && e == RunEnd(o, s, m)
    ensures Pass(o, s[p..]) == Merge(o, s[p..m], s[m..e]) + Pass(o, s[e..])
    ensures PassRuns(o, s[p..]) == 1 + PassRuns(o, s[e..])
  {
    hide RunEnd, Merge, Pass, PassRuns;
    var r := s[p..];
    RunEndShift(o, s, p, 0);
    RunEndShift(o, s, p, m - p);
    PassUnfold(o, r, m - p, e - p);
    assert r[..m - p] == s[p..m];
    assert r[m - p..e - p] == s[m..e];
    assert r[e - p..] == s[e..];
  }

  lemma PassUnfold<X, K(!new)>(o: Order<X, K>, s: seq<X>, m: nat, e: nat)
    requires s != [] && m == RunEnd(o, s, 0) < |s| && e == RunEnd(o, s, m)
    ensures Pass(o, s) == Merge(o, s[..m], s[m..e]) + Pass(o, s[e..])
    ensures PassRuns(o, s) == 1 + PassRuns(o, s[e..])
  {
    hide RunEnd, Merge;
  }

  class List {
    const head: Elem
    const tail: Elem
    /** The elements from head to tail, both included. */
    ghost var chain: seq<Elem>
    /** All of them, and perhaps elements that were removed. */
    ghost var nodes: set<Elem>

    ghost predicate Valid()
      reads this, nodes
    {
      && Within(chain, nodes)
      && |chain| >= 2 && chain[0] == head && chain[|chain| - 1] == tail
      && head.prev == null && tail.next == null
      && Distinct(chain) && Linked(chain)
    }

    /** The interior elements. */
    ghost function Elems(): (s: seq<Elem>)
      reads this
      requires |chain| >= 2
      ensures |s| == |chain| - 2
    {
      chain[1..|chain| - 1]
    }

    lemma ElemsAre()
      requires |chain| >= 2
      ensures Elems() == chain[1..|chain| - 1]
    {
    }

    lemma ElemAt(q: nat)
      requires |chain| >= 2 && q < |chain| - 2
      ensures Elems()[q] == chain[q + 1]
    {
    }

    lemma Ends()
      requires Valid()
      ensures |chain| >= 2 && Distinct(chain) && chain[0] == head && chain[|chain| - 1] == tail
    {
    }

    constructor ()
      ensures Valid() && Elems() == [] && fresh(nodes)
    {
      head := new Elem;
      tail := new Elem;
      new;
      head.prev, head.next := null, tail;
      tail.prev, tail.next := head, null;
      chain := [head, tail];
      nodes := {head, tail};
    }

    /** Inserts ELEM, which is in no list, just before BEFORE. */
    method Insert(before: Elem, elem: Elem, ghost k: nat)
      requires Valid() && 0 < k < |chain| && before == chain[k] && elem !in chain
      modifies this, nodes, elem
      ensures Valid() && chain == old(chain)[..k] + [elem] + old(chain)[k..] && nodes == old(nodes) + {elem}
    {
      assert Adjacent(chain[k - 1], chain[k]);
      assert before.prev == chain[k - 1];
      elem.prev := before.prev;
      elem.next := before;
      before.prev.next := elem;
      before.prev := elem;
      chain := chain[..k] + [elem] + chain[k..];
      nodes := nodes + {elem};
    }

    /** Takes ELEM out of the list and returns the element that followed it. */
    method Remove(elem: Elem, ghost k: nat) returns (following: Elem)
      requires Valid() && 0 < k < |chain| - 1 && elem == chain[k]
      modifies this`chain, nodes
      ensures Valid() && chain == old(chain)[..k] + old(chain)[k + 1..]
      ensures following == old(chain)[k + 1]
    {
      assert Adjacent(chain[k - 1], chain[k]) && Adjacent(chain[k], chain[k + 1]);
      elem.prev.next := elem.next;
      elem.next.prev := elem.prev;
      following := elem.next;
      chain := chain[..k] + chain[k + 1..];
    }

    /** Rewrites the six links that move FIRST up to but not including LAST just before BEFORE. */
    static method Relink(before: Elem, first: Elem, last: Elem, ghost c: seq<Elem>, ghost k: nat, ghost i: nat,
                         ghost j: nat, ghost nodes: set<Elem>)
      requires Within(c, nodes) && Distinct(c) && Linked(c) && 0 < k < |c| && 0 < i < j < |c| && (k < i || j <= k)
      requires before == c[k] && first == c[i] && last == c[j]
      modifies nodes
      ensures c[0].prev == old(c[0].prev) && c[|c| - 1].next == old(c[|c| - 1].next)
      ensures k == j ==> Linked(c)
      ensures k != j ==> Adjacent(c[k - 1], c[i]) && Adjacent(c[j - 1], c[k]) && Adjacent(c[i - 1], c[j])
      ensures k != j ==> forall t | 0 <= t < |c| - 1 && t != k - 1 && t != i - 1 && t != j - 1 ::
              Adjacent(c[t], c[t + 1])
    {
      assert Adjacent(c[j - 1], c[j]) && Adjacent(c[i - 1], c[i]) && Adjacent(c[k - 1], c[k]);
      var final := last.prev;
      // Cleanly remove the elements from their place ...
      first.prev.next := final.next;
      final.next.prev := first.prev;
      // ... and splice them in before BEFORE.
      first.prev := before.prev;
      final.next := before;
      before.prev.next := first;
      before.prev := final;
    }

    /** Moves the elements FIRST up to but not including LAST just before BEFORE, which is not among them. */
    method Splice(before: Elem, first: Elem, last: Elem, ghost k: nat, ghost i: nat, ghost j: nat)
      requires Valid() && 0 < k < |chain| && 0 < i <= j < |chain| && (k < i || j <= k)
      requires before == chain[k] && first == chain[i] && last == chain[j]
      modifies this`chain, nodes
      ensures Valid() && chain == if k < i then Moved(old(chain), k, i, j) else Moved(old(chain), i, j, k)
      ensures |chain| == |old(chain)|
    {
      hide Distinct, Linked, Moved, Adjacent;
      ghost var c := chain;
      if first == last {
        SamePlace(c, i, j);
        MovedNothing(c, k, i);
        return;
      }
      Relink(before, first, last, c, k, i, j, nodes);
      if k < i {
        MovedDistinct(c, k, i, j);
        MovedLinked(c, k, i, j);
        chain := Moved(c, k, i, j);
      } else {
        MovedDistinct(c, i, j, k);
        if j < k {
          MovedLinked(c, i, j, k);
        } else {
          MovedNothing(c, k, i);
        }
        chain := Moved(c, i, j, k);
      }
    }

    /** The element after A, which is not the tail. */
    method Next(a: Elem, ghost k: nat) returns (e: Elem)
      requires Valid() && k < |chain| - 1 && a == chain[k]
      ensures e == chain[k + 1] && e.prev == a
    {
      assert Adjacent(chain[k], chain[k + 1]);
      e := a.next;
    }

    /** The end of the run that starts at A. */
    method FindEndOfRun<K(!new)>(a: Elem, o: Order<Elem, K>, ghost p: nat) returns (e: Elem)
      requires Valid() && p < |Elems()| && a == Elems()[p]
      ensures e == chain[RunEnd(o, Elems(), p) + 1]
    {
      hide *;
      Ends();
      ElemAt(p);
      ghost var s, q := Elems(), p + 1;
      e := Next(a, p + 1);
      while e != tail && !o.Less(e, e.prev)
        invariant p < q <= |s| && e == chain[q + 1] && e.prev == s[q - 1]
        invariant RunEnd(o, s, q - 1) == RunEnd(o, s, p)
        decreases |s| - q
      {
        ElemAt(q);
        RunEndStep(o, s, q);
        e := Next(e, q + 1);
        q := q + 1;
      }
      if e == tail {
        SamePlace(chain, q + 1, |chain| - 1);
      } else {
        ElemAt(q);
      }
      RunEndStep(o, s, q);
    }

    /** Moves B, the first element of the second stretch of a merge, before A, the first of the first. */
    method MoveFirst(a: Elem, b: Elem, ghost i: nat, ghost j: nat, ghost e: nat) returns (b': Elem)
      requires Valid() && i < j < e <= |Elems()| && a == chain[i + 1] && b == chain[j + 1]
      modifies this`chain, nodes
      ensures Valid() && |chain| == |old(chain)| && Elems() == Moved(old(Elems()), i, j, j + 1)
      ensures a == chain[i + 2] && b' == chain[j + 2] && chain[e + 1] == old(chain[e + 1])
    {
      hide *;
      Ends();
      ElemsAre();
      MovedOne(chain, i, j, e);
      b' := Next(b, j + 1);
      Splice(a, b, b', i + 1, j + 1, j + 2);
      ElemsAre();
    }

    /** Merges the adjacent sorted stretches from A0 to A1B0 and from A1B0 to B1, in place. */
    method InplaceMerge<K(!new)>(a0: Elem, a1b0: Elem, b1: Elem, o: Order<Elem, K>, ghost p: nat, ghost m: nat,
                                 ghost e: nat)
      requires Valid() && p < m < e <= |Elems()|
      requires a0 == Elems()[p] && a1b0 == Elems()[m] && b1 == chain[e + 1]
      requires Ascending(o, Elems()[p..m]) && Ascending(o, Elems()[m..e])
      modifies this`chain, nodes
      ensures Valid() && |chain| == |old(chain)|
      ensures Elems() == Merging(o, old(Elems()), p, m, e) && b1 == chain[e + 1]
    {
      hide *;
      Ends();
      ElemAt(p);
      ElemAt(m);
      var a, b := a0, a1b0;
      ghost var i, j := p, m;
      while a != b && b != b1
        invariant Valid() && |chain| == |old(chain)|
        invariant i <= j <= e <= |Elems()|
        invariant a == chain[i + 1] && b == chain[j + 1] && b1 == chain[e + 1]
        invariant Merging(o, Elems(), i, j, e) == Merging(o, old(Elems()), p, m, e)
        decreases e - i
      {
        ElemAt(i);
        ElemAt(j);
        if !o.Less(b, a) {
          MergingFirst(o, Elems(), i, j, e);
          a := Next(a, i + 1);
        } else {
          MergingSecond(o, Elems(), i, j, e);
          b := MoveFirst(a, b, i, j, e);
          j := j + 1;
        }
        i := i + 1;
      }
      Ends();
      if a == b {
        SamePlace(chain, i + 1, j + 1);
      } else {
        SamePlace(chain, j + 1, e + 1);
      }
      MergingDone(o, Elems(), i, j, e);
    }

    /** One pass over the list, merging adjacent runs in pairs.  Returns the number of runs put out. */
    method MergeRuns<K(!new)>(o: Order<Elem, K>) returns (outputRunCnt: nat)
      requires Valid()
      modifies this`chain, nodes
      ensures Valid() && |chain| == |old(chain)|
      ensures Elems() == Pass(o, old(Elems())) && outputRunCnt == PassRuns(o, old(Elems()))
    {
      hide *;
      Ends();
      ghost var p := 0;
      var a0 := Next(head, 0);
      outputRunCnt := 0;
      PassingStart(o, Elems());
      while a0 != tail
        invariant Valid() && |chain| == |old(chain)| >= 2
        invariant p <= |Elems()| && a0 == chain[p + 1]
        invariant Passing(o, Elems(), p) == Pass(o, old(Elems()))
        invariant outputRunCnt + PassRuns(o, Elems()[p..]) == PassRuns(o, old(Elems()))
        decreases |old(chain)| - p
      {
        outputRunCnt := outputRunCnt + 1;
        Ends();
        ElemAt(p);
        var a1b0 := FindEndOfRun(a0, o, p);
        ghost var m := RunEnd(o, Elems(), p);
        if a1b0 == tail {
          SamePlace(chain, m + 1, |chain| - 1);
          PassingLast(o, Elems(), p);
          p := |Elems()|;
          break;
        }
        ElemAt(m);
        var b1 := FindEndOfRun(a1b0, o, m);
        ghost var e := RunEnd(o, Elems(), m);
        PassingStep(o, Elems(), p, m, e);
        InplaceMerge(a0, a1b0, b1, o, p, m, e);
        a0 := b1;
        p := e;
      }
      Ends();
      if a0 == tail {
        SamePlace(chain, p + 1, |chain| - 1);
      }
      PassingEnd(o, Elems());
    }

    /** Sorts the list: for every strict weak order, a sorted, stable permutation, by splices only. */
    method Sort<K(!new)>(o: Order<Elem, K>) returns (ghost passes: nat)
      requires Valid() && o.StrictWeak()
      modifies this`chain, nodes
      ensures Valid() && |chain| == |old(chain)|
      ensures Sorted(o, Elems()) && StablePermutation(o, old(Elems()), Elems())
      ensures passes == Passes(o, old(Elems()))
    {
      hide *;
      Ends();
      ghost var before := Elems();
      PassStable(o, before);
      var outputRunCnt := MergeRuns(o);
      passes := 1;
      PassesNext(o, before);
      while outputRunCnt > 1
        invariant Valid() && |chain| == |old(chain)|
        invariant Elems() == Pass(o, before) && outputRunCnt == PassRuns(o, before)
        invariant StablePermutation(o, old(Elems()), Elems())
        invariant Passes(o, old(Elems())) == passes + if outputRunCnt > 1 then Passes(o, Elems()) else 0
        decreases Runs(o, before)
      {
        PassProgress(o, before);
        before := Elems();
        PassStable(o, before);
        StableTrans(o, old(Elems()), before, Pass(o, before));
        outputRunCnt := MergeRuns(o);
        passes := passes + 1;
        PassesNext(o, before);
      }
      PassLast(o, before);
    }

    /** The earliest element that no other is after, or the tail of an empty list. */
    method Max<K(!new)>(o: Order<Elem, K>) returns (max: Elem)
      requires Valid() && o.StrictWeak()
      ensures if Elems() == [] then max == tail else exists p ::
              0 <= p < |Elems()| && max == Elems()[p] && EarliestMax(o, Elems(), p)
    {
      hide *;
      Ends();
      ghost var p := 0;
      max := Next(head, 0);
      if max != tail {
        ElemAt(0);
        ghost var q := 1;
        EarliestMaxStart(o, Elems());
        var e := Next(max, 1);
        while e != tail
          invariant p < q <= |Elems()| && e == chain[q + 1] && max == chain[p + 1]
          invariant EarliestMax(o, Elems()[..q], p)
          decreases |Elems()| - q
        {
          ElemAt(p);
          ElemAt(q);
          EarliestMaxStep(o, Elems(), p, q);
          if o.Less(max, e) {
            max, p := e, q;
          }
          e := Next(e, q + 1);
          q := q + 1;
        }
        SamePlace(chain, q + 1, |chain| - 1);
        assert Elems()[..q] == Elems();
        ElemAt(p);
      } else {
        SamePlace(chain, 1, |chain| - 1);
      }
    }

    /** Exchanges the links of the elements from FIRST up to END. */
    static method Turn(first: Elem, end: Elem, ghost c: seq<Elem>, ghost nodes: set<Elem>)
      requires |c| >= 2 && Distinct(c) && Within(c, nodes) && first == c[1] && end == c[|c| - 1] && Turned(c, 1)
      modifies nodes
      ensures Turned(c, |c| - 1)
    {
      ghost var q := 1;
      var e := first;
      while e != end
        invariant 1 <= q < |c| && e == c[q] && Turned(c, q)
        decreases |c| - q
      {
        e.prev, e.next := e.next, e.prev;
        e := e.prev;
        q := q + 1;
      }
    }

    /** Reverses the order of the list by exchanging the links of each element. */
    method Reverse()
      requires Valid()
      modifies this`chain, nodes
      ensures Valid() && Elems() == Reversed(old(Elems()))
    {
      BackwardsElems(chain);
      assert Adjacent(chain[0], chain[1]) && Adjacent(chain[|chain| - 2], chain[|chain| - 1]);
      if head.next != tail {
        ghost var c := chain;
        Turn(head.next, tail, c, nodes);
        head.next, tail.prev := tail.prev, head.next;
        var first, last := head.next, tail.prev;
        first.prev, last.next := last.next, first.prev;
        TurnedRound(c, nodes);
        chain := Backwards(c);
      }
    }
  }
}
