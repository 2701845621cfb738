/** The sequence side of the natural merge sort: runs, merging, passes, and what a pass achieves. */
module NaturalMerge {
  import opened Common

  /** An order on elements through a key.  Distinct elements may have equal keys. */
  datatype Order<!X, !T(!new)> = Order(key: X -> T, less: (T, T) -> bool) {
    predicate Less(a: X, b: X) {
      less(key(a), key(b))
    }

    ghost predicate StrictWeak() {
      && (forall a :: !less(a, a))
      && (forall a, b, c :: less(a, b) && less(b, c) ==> less(a, c))
      && (forall a, b, c :: Tie(a, b) && Tie(b, c) ==> Tie(a, c))
    }

    predicate Tie(a: T, b: T) {
      !less(a, b) && !less(b, a)
    }

    /** "Not after" is transitive. */
    lemma NotAfterTrans(a: T, b: T, c: T)
      requires StrictWeak() && !less(b, a) && !less(c, b)
      ensures !less(c, a)
    {
      if less(c, a) {
        // b is not before a, so b before c would give b before a: b and c tie, and likewise a and b.
        assert !less(b, c) && !less(a, b);
        assert Tie(c, b) && Tie(b, a);
      }
    }
  }

  /** In nondecreasing order. */
  ghost predicate Sorted<X, T(!new)>(o: Order<X, T>, s: seq<X>) {
    forall i, j | 0 <= i < j < |s| :: !o.Less(s[j], s[i])
  }

  /** Only neighbours compared, as the code does it. */
  predicate Ascending<X, T(!new)>(o: Order<X, T>, s: seq<X>) {
    forall i | 0 < i < |s| :: !o.Less(s[i], s[i - 1])
  }

  lemma {:induction false} AscendingIsSorted<X, T(!new)>(o: Order<X, T>, s: seq<X>)
    requires o.StrictWeak() && Ascending(o, s)
    ensures Sorted(o, s)
  {
    forall i, j | 0 <= i < j < |s|
      ensures !o.Less(s[j], s[i])
    {
      AscendingPair(o, s, i, j);
    }
  }

  lemma {:induction false} AscendingPair<X, T(!new)>(o: Order<X, T>, s: seq<X>, i: nat, j: nat)
    requires o.StrictWeak() && Ascending(o, s) && i < j < |s|
    ensures !o.Less(s[j], s[i])
  {
    if i + 1 < j {
      AscendingPair(o, s, i, j - 1);
      o.NotAfterTrans(o.key(s[i]), o.key(s[j - 1]), o.key(s[j]));
    }
  }

  /** The end of the run that starts at A. */
  function RunEnd<X, T(!new)>(o: Order<X, T>, s: seq<X>, a: nat): (e: nat)
    requires a < |s|
    ensures a < e <= |s|
    ensures Ascending(o, s[a..e])
    ensures e < |s| ==> o.Less(s[e], s[e - 1])
    decreases |s| - a
  {
    if a + 1 == |s| || o.Less(s[a + 1], s[a]) then
      a + 1
    else
      var e := RunEnd(o, s, a + 1);
      assert forall i | 0 < i < e - a :: s[a..e][i] == s[a + 1..e][i - 1];
      e
  }

  /** How often an element is before its predecessor. */
  function Descents<X, T(!new)>(o: Order<X, T>, s: seq<X>): nat {
    if |s| < 2 then 0 else Descents(o, s[1..]) + if o.Less(s[1], s[0]) then 1 else 0
  }

  /** The number of maximal runs. */
  function Runs<X, T(!new)>(o: Order<X, T>, s: seq<X>): nat {
    if s == [] then 0 else 1 + Descents(o, s)
  }

  lemma {:induction false} DescentsConcat<X, T(!new)>(o: Order<X, T>, s: seq<X>, t: seq<X>)
    requires s != [] && t != []
    ensures Descents(o, s + t) == Descents(o, s) + Descents(o, t) + if o.Less(t[0], s[|s| - 1]) then 1 else 0
  {
    if |s| == 1 {
      assert (s + t)[1..] == t;
    } else {
      assert (s + t)[1..] == s[1..] + t;
      DescentsConcat(o, s[1..], t);
    }
  }

  lemma {:induction false} AscendingNoDescents<X, T(!new)>(o: Order<X, T>, s: seq<X>)
    ensures Ascending(o, s) <==> Descents(o, s) == 0
  {
    if |s| >= 2 {
      AscendingNoDescents(o, s[1..]);
      if Ascending(o, s) {
        assert forall i | 0 < i < |s| - 1 :: s[1..][i] == s[i + 1] && s[1..][i - 1] == s[i];
        assert !o.Less(s[1], s[1 - 1]);
      } else {
        var i :| 0 < i < |s| && o.Less(s[i], s[i - 1]);
        if i > 1 {
          assert s[1..][i - 1] == s[i] && s[1..][i - 1 - 1] == s[i - 1];
        }
      }
    }
  }

  /** A maximal run accounts for exactly one run. */
  lemma RunsAfterRun<X, T(!new)>(o: Order<X, T>, s: seq<X>)
    requires s != []
    ensures Runs(o, s) == 1 + Runs(o, s[RunEnd(o, s, 0)..])
  {
    var e := RunEnd(o, s, 0);
    AscendingNoDescents(o, s[0..e]);
    if e < |s| {
      assert s == s[0..e] + s[e..];
      DescentsConcat(o, s[0..e], s[e..]);
    } else {
      assert s[0..e] == s;
    }
  }

  /** Merging never creates more runs than its parts have together. */
  lemma RunsConcat<X, T(!new)>(o: Order<X, T>, s: seq<X>, t: seq<X>)
    ensures Runs(o, s + t) <= Runs(o, s) + Runs(o, t)
  {
    if s == [] {
      assert s + t == t;
    } else if t == [] {
      assert s + t == s;
    } else {
      DescentsConcat(o, s, t);
    }
  }

  /** The stable merge: on a tie the element of the first sequence comes first. */
  function Merge<X, T(!new)>(o: Order<X, T>, x: seq<X>, y: seq<X>): (m: seq<X>)
    ensures |m| == |x| + |y|
  {
    if x == [] then y
    else if y == [] then x
    else if !o.Less(y[0], x[0]) then [x[0]] + Merge(o, x[1..], y)
    else [y[0]] + Merge(o, x, y[1..])
  }

  lemma {:induction false} MergeElements<X, T(!new)>(o: Order<X, T>, x: seq<X>, y: seq<X>)
    ensures multiset(Merge(o, x, y)) == multiset(x) + multiset(y)
  {
    if x == [] || y == [] {
    } else if !o.Less(y[0], x[0]) {
      MergeElements(o, x[1..], y);
      FirstElement(x);
      FirstElement([x[0]] + Merge(o, x[1..], y));
    } else {
      MergeElements(o, x, y[1..]);
      FirstElement(y);
      FirstElement([y[0]] + Merge(o, x, y[1..]));
    }
  }

  lemma FirstElement<X>(s: seq<X>)
    requires s != []
    ensures multiset(s) == multiset{s[0]} + multiset(s[1..])
    ensures multiset(s[1..]) == multiset(s) - multiset{s[0]}
  {
    assert s == [s[0]] + s[1..];
  }

  /** What comes first in a merge is one of the two first elements. */
  lemma {:induction false} MergeAscending<X, T(!new)>(o: Order<X, T>, x: seq<X>, y: seq<X>)
    requires o.StrictWeak() && Ascending(o, x) && Ascending(o, y)
    ensures Ascending(o, Merge(o, x, y))
  {
    if x == [] || y == [] {
    } else if !o.Less(y[0], x[0]) {
      AscendingTail(o, x);
      MergeAscending(o, x[1..], y);
      AscendingCons(o, x[0], Merge(o, x[1..], y));
    } else {
      AscendingTail(o, y);
      MergeAscending(o, x, y[1..]);
      assert !o.Less(x[0], y[0]);
      AscendingCons(o, y[0], Merge(o, x, y[1..]));
    }
  }

  lemma AscendingTail<X, T(!new)>(o: Order<X, T>, s: seq<X>)
    requires s != [] && Ascending(o, s)
    ensures Ascending(o, s[1..])
    ensures |s| > 1 ==> !o.Less(s[1], s[0])
  {
    var t := s[1..];
    forall i | 0 < i < |t|
      ensures !o.Less(t[i], t[i - 1])
    {
      assert !o.Less(s[i + 1], s[i + 1 - 1]);
    }
    assert |s| > 1 ==> !o.Less(s[1], s[1 - 1]);
  }

  lemma AscendingCons<X, T(!new)>(o: Order<X, T>, a: X, s: seq<X>)
    requires Ascending(o, s) && (s != [] ==> !o.Less(s[0], a))
    ensures Ascending(o, [a] + s)
  {
    forall i | 0 < i < |s| + 1
      ensures !o.Less(([a] + s)[i], ([a] + s)[i - 1])
    {
      if i > 1 {
        assert !o.Less(s[i - 1], s[i - 1 - 1]);
      }
    }
  }

  /** The elements of S that tie with key K, in order. */
  ghost function Ties<X, T(!new)>(o: Order<X, T>, s: seq<X>, k: T): seq<X> {
    if s == [] then []
    else (if o.Tie(o.key(s[0]), k) then [s[0]] else []) + Ties(o, s[1..], k)
  }

  lemma TiesFirst<X, T(!new)>(o: Order<X, T>, s: seq<X>, k: T)
    requires s != []
    ensures o.Tie(o.key(s[0]), k)
            ==> Ties(o, s, k) == [s[0]] + Ties(o, s[1..], k) && Ties(o, s[1..], k) == Ties(o, s, k)[1..]
    ensures !o.Tie(o.key(s[0]), k) ==> Ties(o, s, k) == Ties(o, s[1..], k)
  {
  }

  lemma {:induction false} TiesConcat<X, T(!new)>(o: Order<X, T>, s: seq<X>, t: seq<X>, k: T)
    ensures Ties(o, s + t, k) == Ties(o, s, k) + Ties(o, t, k)
  {
    if s == [] {
      assert s + t == t;
    } else {
      assert (s + t)[1..] == s[1..] + t;
      TiesConcat(o, s[1..], t, k);
    }
  }

  /** Elements after B in a sorted sequence do not tie with it. */
  lemma {:induction false} NoTies<X, T(!new)>(o: Order<X, T>, x: seq<X>, b: X, k: T)
    requires o.StrictWeak() && o.Tie(o.key(b), k)
    requires forall i | 0 <= i < |x| :: o.Less(b, x[i])
    ensures Ties(o, x, k) == []
  {
    if x != [] {
      NoTies(o, x[1..], b, k);
      assert o.Less(b, x[0]);
      assert o.Tie(k, o.key(x[0])) == o.Tie(o.key(x[0]), k);
    }
  }

  /** Merging keeps the order of elements that tie. */
  lemma {:induction false} MergeStable<X, T(!new)>(o: Order<X, T>, x: seq<X>, y: seq<X>, k: T)
    requires o.StrictWeak() && Sorted(o, x)
    ensures Ties(o, Merge(o, x, y), k) == Ties(o, x, k) + Ties(o, y, k)
  {
    if x == [] || y == [] {
    } else if !o.Less(y[0], x[0]) {
      MergeStable(o, x[1..], y, k);
    } else {
      MergeStable(o, x, y[1..], k);
      if o.Tie(o.key(y[0]), k) {
        AllAfter(o, x, y[0]);
        NoTies(o, x, y[0], k);
      }
    }
  }

  /** What is before the first element of a sorted sequence is before all of them. */
  lemma AllAfter<X, T(!new)>(o: Order<X, T>, x: seq<X>, y: X)
    requires o.StrictWeak() && Sorted(o, x) && x != [] && o.Less(y, x[0])
    ensures forall i | 0 <= i < |x| :: o.Less(y, x[i])
  {
    forall i | 0 <= i < |x|
      ensures o.Less(y, x[i])
    {
      if !o.Less(y, x[i]) {
        // x[0] is not after x[i], which is not after y: x[0] would not be after y.
        assert i > 0 ==> !o.Less(x[i], x[0]);
        o.NotAfterTrans(o.key(x[0]), o.key(x[i]), o.key(y));
      }
    }
  }

  /** T is a rearrangement of S in which elements that tie keep their order. */
  ghost predicate StablePermutation<X, T(!new)>(o: Order<X, T>, s: seq<X>, t: seq<X>) {
    && multiset(s) == multiset(t)
    && forall k :: Ties(o, s, k) == Ties(o, t, k)
  }

  /** One pass: adjacent runs are merged in pairs, a run left over stays. */
  function Pass<X, T(!new)>(o: Order<X, T>, s: seq<X>): (r: seq<X>)
    decreases |s|
  {
    if s == [] then []
    else
      var m := RunEnd(o, s, 0);
      if m == |s| then s
      else
        var e := RunEnd(o, s, m);
        Merge(o, s[..m], s[m..e]) + Pass(o, s[e..])
  }

  /** The number of runs a pass puts out. */
  function PassRuns<X, T(!new)>(o: Order<X, T>, s: seq<X>): (n: nat)
    ensures n == 0 <==> s == []
    decreases |s|
  {
    if s == [] then 0
    else
      var m := RunEnd(o, s, 0);
      if m == |s| then 1 else 1 + PassRuns(o, s[RunEnd(o, s, m)..])
  }

  /** Two adjacent runs at the front of S, merged. */
  lemma FrontMerged<X, T(!new)>(o: Order<X, T>, s: seq<X>, m: nat, e: nat)
    requires o.StrictWeak() && s != [] && m == RunEnd(o, s, 0) < |s| && e == RunEnd(o, s, m)
    ensures Ascending(o, s[..m]) && Ascending(o, s[m..e]) && Ascending(o, Merge(o, s[..m], s[m..e]))
    ensures StablePermutation(o, s[..m] + s[m..e], Merge(o, s[..m], s[m..e]))
  {
    var x, y := s[..m], s[m..e];
    assert x == s[0..m];
    MergeAscending(o, x, y);
    MergeElements(o, x, y);
    AscendingIsSorted(o, x);
    forall k
      ensures Ties(o, x + y, k) == Ties(o, Merge(o, x, y), k)
    {
      MergeStable(o, x, y, k);
      TiesConcat(o, x, y, k);
    }
  }

  lemma StableConcat<X, T(!new)>(o: Order<X, T>, s: seq<X>, s': seq<X>, t: seq<X>, t': seq<X>)
    requires StablePermutation(o, s, s') && StablePermutation(o, t, t')
    ensures StablePermutation(o, s + t, s' + t')
  {
    forall k
      ensures Ties(o, s + t, k) == Ties(o, s' + t', k)
    {
      TiesConcat(o, s, t, k);
      TiesConcat(o, s', t', k);
    }
  }

  /** A pass is a stable permutation. */
  lemma {:induction false} PassStable<X, T(!new)>(o: Order<X, T>, s: seq<X>)
    requires o.StrictWeak()
    ensures StablePermutation(o, s, Pass(o, s))
    decreases |s|
  {
    hide StablePermutation, RunEnd, Merge, Ties, Ascending;
    if s == [] || RunEnd(o, s, 0) == |s| {
      StableRefl(o, s);
    } else {
      var m := RunEnd(o, s, 0);
      var e := RunEnd(o, s, m);
      FrontMerged(o, s, m, e);
      PassStable(o, s[e..]);
      StableConcat(o, s[..m] + s[m..e], Merge(o, s[..m], s[m..e]), s[e..], Pass(o, s[e..]));
      assert s == s[..m] + s[m..e] + s[e..];
    }
  }

  lemma StableRefl<X, T(!new)>(o: Order<X, T>, s: seq<X>)
    ensures StablePermutation(o, s, s)
  {
  }

  /** A pass halves the number of runs, rounding up, and its result has no more runs than it put out. */
  lemma {:induction false} PassHalves<X, T(!new)>(o: Order<X, T>, s: seq<X>)
    requires o.StrictWeak()
    ensures PassRuns(o, s) == (Runs(o, s) + 1) / 2
    ensures Runs(o, Pass(o, s)) <= PassRuns(o, s)
    decreases |s|
  {
    if s != [] {
      RunsAfterRun(o, s);
      var m := RunEnd(o, s, 0);
      if m == |s| {
        assert s[0..m] == s;
        AscendingNoDescents(o, s);
      } else {
        var e := RunEnd(o, s, m);
        RunsAfter(o, s, m);
        PassHalves(o, s[e..]);
        FrontMerged(o, s, m, e);
        AscendingNoDescents(o, Merge(o, s[..m], s[m..e]));
        RunsConcat(o, Merge(o, s[..m], s[m..e]), Pass(o, s[e..]));
      }
    }
  }

  lemma RunsAfter<X, T(!new)>(o: Order<X, T>, s: seq<X>, m: nat)
    requires m < |s|
    ensures Runs(o, s[m..]) == 1 + Runs(o, s[RunEnd(o, s, m)..])
  {
    RunEndShift(o, s, m, 0);
    RunsAfterRun(o, s[m..]);
    assert s[m..][RunEnd(o, s, m) - m..] == s[RunEnd(o, s, m)..];
  }

  lemma {:induction false} RunEndShift<X, T(!new)>(o: Order<X, T>, s: seq<X>, m: nat, a: nat)
    requires m + a < |s|
    ensures RunEnd(o, s[m..], a) + m == RunEnd(o, s, m + a)
    decreases |s| - a
  {
    if m + a + 1 < |s| && !o.Less(s[m + a + 1], s[m + a]) {
      RunEndShift(o, s, m, a + 1);
    }
  }

  /** A pass that puts out more than one run leaves strictly fewer runs than there were. */
  lemma PassProgress<X, T(!new)>(o: Order<X, T>, s: seq<X>)
    requires o.StrictWeak() && PassRuns(o, s) > 1
    ensures Runs(o, Pass(o, s)) < Runs(o, s)
  {
    PassHalves(o, s);
  }

  /** A pass that puts out at most one run leaves the sequence sorted. */
  lemma PassLast<X, T(!new)>(o: Order<X, T>, s: seq<X>)
    requires o.StrictWeak() && PassRuns(o, s) <= 1
    ensures Sorted(o, Pass(o, s))
  {
    PassHalves(o, s);
    AscendingNoDescents(o, Pass(o, s));
    AscendingIsSorted(o, Pass(o, s));
  }

  /** The passes that sorting takes: until one puts out a single run. */
  ghost function Passes<X, T(!new)>(o: Order<X, T>, s: seq<X>): nat
    requires o.StrictWeak()
    decreases Runs(o, s)
  {
    if PassRuns(o, s) <= 1 then 1
    else
      PassProgress(o, s);
      1 + Passes(o, Pass(o, s))
  }

  lemma PassesNext<X, T(!new)>(o: Order<X, T>, s: seq<X>)
    requires o.StrictWeak()
    ensures Passes(o, s) == 1 + if PassRuns(o, s) > 1 then Passes(o, Pass(o, s)) else 0
  {
    hide Runs, PassRuns, Pass;
  }

  /** At most 2^K runs take at most K passes, and one is taken in any case. */
  lemma {:induction false} PassesLog<X, T(!new)>(o: Order<X, T>, s: seq<X>, k: nat)
    requires o.StrictWeak() && Runs(o, s) <= Power(2, k) && k >= 1
    ensures 1 <= Passes(o, s) <= k
    decreases k
  {
    hide Runs, PassRuns, Pass, Passes, Power;
    PassesNext(o, s);
    if PassRuns(o, s) > 1 {
      PassHalves(o, s);
      Halved(k);
      PassesLog(o, Pass(o, s), k - 1);
    }
  }

  lemma Halved(k: nat)
    requires k >= 1
    ensures Power(2, 1) == 2 && Power(2, k) == 2 * Power(2, k - 1)
  {
  }

  lemma StableTrans<X, T(!new)>(o: Order<X, T>, s: seq<X>, t: seq<X>, u: seq<X>)
    requires StablePermutation(o, s, t) && StablePermutation(o, t, u)
    ensures StablePermutation(o, s, u)
  {
    forall k
      ensures Ties(o, s, k) == Ties(o, u, k)
    {
      assert Ties(o, s, k) == Ties(o, t, k);
    }
  }

  /** Sorted, permuted and stable leaves no choice: the result is determined. */
  lemma {:induction false} StableSortUnique<X, T(!new)>(o: Order<X, T>, s: seq<X>, t: seq<X>)
    requires o.StrictWeak() && Sorted(o, s) && Sorted(o, t) && StablePermutation(o, s, t)
    ensures s == t
  {
    if s == [] {
      assert |multiset(t)| == |multiset(s)| == 0;
    } else {
      SameFirst(o, s, t);
      StableTail(o, s, t);
      StableSortUnique(o, s[1..], t[1..]);
      assert s == [s[0]] + s[1..] && t == [t[0]] + t[1..];
    }
  }

  lemma SameFirst<X, T(!new)>(o: Order<X, T>, s: seq<X>, t: seq<X>)
    requires o.StrictWeak() && Sorted(o, s) && Sorted(o, t) && StablePermutation(o, s, t) && s != []
    ensures t != [] && t[0] == s[0]
  {
    assert s[0] in multiset(t);
    var i :| 0 <= i < |t| && t[i] == s[0];
    assert t[0] in multiset(s);
    var j :| 0 <= j < |s| && s[j] == t[0];
    var k := o.key(s[0]);
    assert o.Tie(o.key(t[0]), k);
    assert Ties(o, s, k) == Ties(o, t, k);
    assert Ties(o, s, k)[0] == s[0] && Ties(o, t, k)[0] == t[0];
  }

  lemma StableTail<X, T(!new)>(o: Order<X, T>, s: seq<X>, t: seq<X>)
    requires StablePermutation(o, s, t) && s != [] && t != [] && t[0] == s[0]
    ensures StablePermutation(o, s[1..], t[1..])
  {
    FirstElement(s);
    FirstElement(t);
    hide Ties;
    forall k
      ensures Ties(o, s[1..], k) == Ties(o, t[1..], k)
    {
      assert Ties(o, s, k) == Ties(o, t, k);
      TiesFirst(o, s, k);
      TiesFirst(o, t, k);
    }
  }
}
