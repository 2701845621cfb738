/** The ready queue: a yielding thread goes to its end, and the earliest thread of the highest priority runs next.

    Threads are known by number.  Priorities do not change here and no thread blocks or wakes. */
module RoundRobin {
  import opened Common
  import CDivision

  datatype State = State(running: int, ready: seq<int>)

  /** The threads that want to run, in the order in which the queue will have them; the idle thread is not one. */
  function Pool(idle: int, s: State): seq<int> {
    s.ready + if s.running == idle then [] else [s.running]
  }

  /** The P-th of S is the first with the highest priority. */
  ghost predicate FirstMax(prio: int -> int, s: seq<int>, p: int) {
    && 0 <= p < |s|
    && (forall k | 0 <= k < |s| :: prio(s[k]) <= prio(s[p]))
    && (forall k | 0 <= k < p :: prio(s[k]) < prio(s[p]))
  }

  /** The place of the first of the highest priority among the first N. */
  function MaxIndex(prio: int -> int, s: seq<int>, n: nat): (p: int)
    requires 0 < n <= |s|
    ensures FirstMax(prio, s[..n], p)
  {
    if n == 1 then 0
    else
      var p := MaxIndex(prio, s, n - 1);
      assert forall k | 0 <= k < n - 1 :: s[..n - 1][k] == s[..n][k];
      if prio(s[p]) < prio(s[n - 1]) then n - 1 else p
  }

  function Without(s: seq<int>, p: int): seq<int>
    requires 0 <= p < |s|
  {
    s[..p] + s[p + 1..]
  }

  function Yielded(idle: int, prio: int -> int, s: State): State {
    var pool := Pool(idle, s);
    if pool == [] then State(idle, [])
    else
      var p := MaxIndex(prio, pool, |pool|);
      State(pool[p], Without(pool, p))
  }

  function After(idle: int, prio: int -> int, s: State, n: nat): State {
    if n == 0 then s else Yielded(idle, prio, After(idle, prio, s, n - 1))
  }

  /** The threads of S with priority M. */
  function Of(prio: int -> int, s: seq<int>, m: int): seq<int> {
    if s == [] then []
    else if prio(s[0]) == m then [s[0]] + Of(prio, s[1..], m)
    else Of(prio, s[1..], m)
  }

  lemma {:induction false} OfMembers(prio: int -> int, s: seq<int>, m: int)
    ensures forall x :: x in Of(prio, s, m) <==> x in s && prio(x) == m
  {
    if s != [] {
      OfMembers(prio, s[1..], m);
      assert forall x :: x in s <==> x == s[0] || x in s[1..];
    }
  }

  lemma OfCons(prio: int -> int, x: int, s: seq<int>, m: int)
    ensures Of(prio, [x] + s, m) == (if prio(x) == m then [x] else []) + Of(prio, s, m)
  {
    assert ([x] + s)[1..] == s;
  }

  lemma {:induction false} OfConcat(prio: int -> int, s: seq<int>, t: seq<int>, m: int)
    ensures Of(prio, s + t, m) == Of(prio, s, m) + Of(prio, t, m)
  {
    if s == [] {
      assert s + t == t;
    } else {
      hide Of;
      var x, rest := s[0], s[1..];
      OfConcat(prio, rest, t, m);
      OfCons(prio, x, rest, m);
      OfCons(prio, x, rest + t, m);
      assert s == [x] + rest && s + t == [x] + (rest + t);
    }
  }

  lemma {:induction false} OfNone(prio: int -> int, s: seq<int>, m: int)
    requires forall k | 0 <= k < |s| :: prio(s[k]) != m
    ensures Of(prio, s, m) == []
  {
    if s != [] {
      OfNone(prio, s[1..], m);
    }
  }

  lemma {:induction false} OfDistinct(prio: int -> int, s: seq<int>, m: int)
    requires Distinct(s)
    ensures Distinct(Of(prio, s, m))
  {
    if s != [] {
      OfDistinct(prio, s[1..], m);
      OfMembers(prio, s[1..], m);
      assert s[0] !in s[1..];
    }
  }

  /** The first N of Q go to the end. */
  function Rotated(q: seq<int>, n: nat): seq<int>
    requires n <= |q|
  {
    q[n..] + q[..n]
  }

  /** M is the highest priority in S. */
  ghost predicate Top(prio: int -> int, s: seq<int>, m: int) {
    (exists k :: 0 <= k < |s| && prio(s[k]) == m) && forall k | 0 <= k < |s| :: prio(s[k]) <= m
  }

  /** Moving the first thread of priority M to the end turns the sequence of those threads. */
  lemma OfMoved(prio: int -> int, s: seq<int>, p: int, m: int)
    requires 0 <= p < |s| && prio(s[p]) == m && forall k | 0 <= k < p :: prio(s[k]) != m
    ensures Of(prio, s, m) == [s[p]] + Of(prio, s[p + 1..], m)
    ensures Of(prio, Without(s, p) + [s[p]], m) == Of(prio, s[p + 1..], m) + [s[p]]
  {
    var before, after := s[..p], s[p + 1..];
    assert s == before + ([s[p]] + after);
    OfConcat(prio, before, [s[p]] + after, m);
    OfConcat(prio, [s[p]], after, m);
    OfConcat(prio, before + after, [s[p]], m);
    OfConcat(prio, before, after, m);
    OfNone(prio, before, m);
    assert Of(prio, [s[p]], m) == [s[p]];
  }

  ghost predicate Waiting(idle: int, prio: int -> int, pool: seq<int>, m: int) {
    Distinct(pool) && idle !in pool && Top(prio, pool, m)
  }

  lemma TopIndex(prio: int -> int, s: seq<int>, m: int)
    requires Top(prio, s, m)
    ensures s != [] && var p := MaxIndex(prio, s, |s|); prio(s[p]) == m && forall k | 0 <= k < p :: prio(s[k]) != m
  {
    assert s[..|s|] == s;
  }

  lemma MovedWaiting(idle: int, prio: int -> int, s: seq<int>, m: int, p: int)
    requires Waiting(idle, prio, s, m) && 0 <= p < |s| && prio(s[p]) == m
    ensures Waiting(idle, prio, Without(s, p) + [s[p]], m)
  {
    var s' := Without(s, p) + [s[p]];
    MovedBack(s, p);
    assert s'[|s'| - 1] == s[p];
    forall k | 0 <= k < |s'|
      ensures prio(s'[k]) <= m
    {
      var x := s'[k];
      assert x in s';
      var j :| 0 <= j < |s| && s[j] == x;
    }
  }

  /** A yield runs the first of the threads of highest priority, and puts it behind the others. */
  lemma YieldRotates(idle: int, prio: int -> int, s: State, m: int)
    requires Waiting(idle, prio, Pool(idle, s), m)
    ensures var q, s' := Of(prio, Pool(idle, s), m), Yielded(idle, prio, s);
            && q != [] && s'.running == q[0] && prio(s'.running) == m
            && Of(prio, Pool(idle, s'), m) == Rotated(q, 1)
            && Waiting(idle, prio, Pool(idle, s'), m)
  {
    hide Of, Top, Distinct;
    var pool := Pool(idle, s);
    TopIndex(prio, pool, m);
    var p, s' := MaxIndex(prio, pool, |pool|), Yielded(idle, prio, s);
    assert pool[p] in pool && pool[p] != idle;
    assert Pool(idle, s') == Without(pool, p) + [pool[p]];
    hide Pool, Yielded, Without, MaxIndex;
    OfMoved(prio, pool, p, m);
    MovedWaiting(idle, prio, pool, m, p);
  }

  /** T is the P-th of POOL, the first with the highest priority, and the others are left in their order. */
  ghost predicate Takes(prio: int -> int, pool: seq<int>, p: int, t: int, rest: seq<int>) {
    FirstMax(prio, pool, p) && t == pool[p] && rest == pool[..p] + pool[p + 1..]
  }

  lemma MaxTaken(prio: int -> int, pool: seq<int>)
    requires pool != []
    ensures var p := MaxIndex(prio, pool, |pool|); Takes(prio, pool, p, pool[p], Without(pool, p))
  {
    assert pool[..|pool|] == pool;
  }

  /** A yield loses and invents no thread, and those of every other priority keep their order. */
  ghost predicate KeepsAll(idle: int, prio: int -> int, s: State, s': State) {
    && idle !in s'.ready
    && multiset(Pool(idle, s')) == multiset(Pool(idle, s))
    && forall m | m != prio(s'.running) :: Of(prio, Pool(idle, s'), m) == Of(prio, Pool(idle, s), m)
  }

  lemma YieldKeeps(idle: int, prio: int -> int, s: State)
    requires idle !in s.ready
    ensures KeepsAll(idle, prio, s, Yielded(idle, prio, s))
  {
    hide Of;
    var pool := Pool(idle, s);
    if pool != [] {
      var p := MaxIndex(prio, pool, |pool|);
      var a, x, b := pool[..p], pool[p], pool[p + 1..];
      hide MaxIndex;
      assert Without(pool, p) == a + b;
      Unmoved(pool, p, idle);
      MovedKeeps(prio, a, x, b);
    }
  }

  lemma Unmoved(pool: seq<int>, p: int, idle: int)
    requires 0 <= p < |pool| && idle !in pool
    ensures pool == pool[..p] + [pool[p]] + pool[p + 1..]
    ensures pool[p] != idle && idle !in pool[..p] + pool[p + 1..]
  {
    var x := pool[p];
    assert x in pool;
  }

  lemma MovedKeeps(prio: int -> int, a: seq<int>, x: int, b: seq<int>)
    ensures multiset(a + b + [x]) == multiset(a + [x] + b)
    ensures forall m | m != prio(x) :: Of(prio, a + b + [x], m) == Of(prio, a + [x] + b, m)
  {
    hide Of;
    forall m | m != prio(x)
      ensures Of(prio, a + b + [x], m) == Of(prio, a + [x] + b, m)
    {
      OfOthers(prio, a, x, b, m);
    }
  }

  lemma OfOthers(prio: int -> int, a: seq<int>, x: int, b: seq<int>, m: int)
    requires m != prio(x)
    ensures Of(prio, a + b + [x], m) == Of(prio, a + [x] + b, m)
  {
    assert Of(prio, [x], m) == [];
    hide Of;
    OfConcat(prio, a + [x], b, m);
    OfConcat(prio, a, [x], m);
    OfConcat(prio, a, b, m);
    OfConcat(prio, a + b, [x], m);
  }

  /** Nobody is lost or invented by any number of yields. */
  lemma {:induction false} AfterKeeps(idle: int, prio: int -> int, s: State, n: nat)
    requires idle !in s.ready
    ensures idle !in After(idle, prio, s, n).ready
    ensures multiset(Pool(idle, After(idle, prio, s, n))) == multiset(Pool(idle, s))
  {
    hide Pool, Yielded, Of;
    if n > 0 {
      AfterKeeps(idle, prio, s, n - 1);
      YieldKeeps(idle, prio, After(idle, prio, s, n - 1));
    }
  }

  lemma MovedBack(s: seq<int>, p: int)
    requires 0 <= p < |s|
    ensures var s' := s[..p] + s[p + 1..] + [s[p]];
            && (forall x :: x in s' <==> x in s)
            && (Distinct(s) ==> Distinct(s'))
  {
    var s' := s[..p] + s[p + 1..] + [s[p]];
    assert forall k | 0 <= k < |s| :: s'[k] == if k < p then s[k] else if k < |s| - 1 then s[k + 1] else s[p];
    assert forall k | 0 <= k < |s| :: s[k] == if k < p then s'[k] else if k == p then s'[|s| - 1] else s'[k - 1];
  }

  lemma RotatedNone(q: seq<int>)
    ensures Rotated(q, 0) == q
  {
  }

  lemma RotatedMore(q: seq<int>, i: nat)
    requires i < |q|
    ensures Rotated(Rotated(q, i), 1) == Rotated(q, if i + 1 == |q| then 0 else i + 1)
    ensures Rotated(q, i)[0] == q[i]
  {
  }

  /** The threads of highest priority run in turn, for ever, in the order in which they were queued, and no other
      does. */
  lemma {:induction false} TakeTurns(idle: int, prio: int -> int, s: State, m: int, n: nat)
    requires Waiting(idle, prio, Pool(idle, s), m)
    ensures var q := Of(prio, Pool(idle, s), m);
            && q != [] && Distinct(q)
            && After(idle, prio, s, n + 1).running == q[n % |q|] && prio(q[n % |q|]) == m
            && Of(prio, Pool(idle, After(idle, prio, s, n)), m) == Rotated(q, n % |q|)
            && Waiting(idle, prio, Pool(idle, After(idle, prio, s, n)), m)
  {
    hide Pool, Yielded, Top, Distinct, Of, Rotated;
    var q := Of(prio, Pool(idle, s), m);
    OfDistinct(prio, Pool(idle, s), m);
    if n == 0 {
      YieldRotates(idle, prio, s, m);
      RotatedNone(q);
      CDivision.DivUnique(0, |q|, 0, 0);
    } else {
      TakeTurns(idle, prio, s, m, n - 1);
      var t := After(idle, prio, s, n - 1);
      YieldRotates(idle, prio, t, m);
      RotatedMore(q, (n - 1) % |q|);
      NextTurn(n - 1, |q|);
      YieldRotates(idle, prio, After(idle, prio, s, n), m);
      RotatedMore(q, n % |q|);
    }
  }

  lemma NextTurn(n: nat, k: nat)
    requires k > 0
    ensures (n + 1) % k == if n % k + 1 == k then 0 else n % k + 1
  {
    var q, r := n / k, n % k;
    if r + 1 == k {
      assert n + 1 == k * (q + 1);
      CDivision.DivUnique(n + 1, k, q + 1, 0);
    } else {
      CDivision.DivUnique(n + 1, k, q, r + 1);
    }
  }

  /** The thread that the yield number N, counted from 0, runs. */
  function RunBy(idle: int, prio: int -> int, s: State, n: nat): int {
    After(idle, prio, s, n + 1).running
  }

  /** Among any K consecutive yields, where K threads have the highest priority, each of these runs exactly once. */
  lemma EachOnce(idle: int, prio: int -> int, s: State, m: int, start: nat, t: int) returns (n: nat)
    requires Waiting(idle, prio, Pool(idle, s), m)
    requires t in Pool(idle, s) && prio(t) == m
    ensures var k := |Of(prio, Pool(idle, s), m)|;
            && start <= n < start + k && RunBy(idle, prio, s, n) == t
            && forall j | start <= j < start + k && j != n :: RunBy(idle, prio, s, j) != t
  {
    hide Pool, Waiting, After, Of;
    var q := Of(prio, Pool(idle, s), m);
    OfMembers(prio, Pool(idle, s), m);
    var x :| 0 <= x < |q| && q[x] == t;
    var i := Offset(start, |q|, x);
    n := start + i;
    forall j | start <= j < start + |q|
      ensures RunBy(idle, prio, s, j) == t <==> j == n
    {
      TakeTurns(idle, prio, s, m, j);
      SamePlace(start, |q|, x, i, j - start);
    }
  }

  lemma Offset(start: nat, k: nat, x: nat) returns (i: nat)
    requires x < k
    ensures i < k && (start + i) % k == x
  {
    var q, r := start / k, start % k;
    if r <= x {
      i := x - r;
      CDivision.DivUnique(start + i, k, q, x);
    } else {
      i := k - r + x;
      assert start + i == k * (q + 1) + x;
      CDivision.DivUnique(start + i, k, q + 1, x);
    }
  }

  lemma SamePlace(start: nat, k: nat, x: nat, i: nat, j: nat)
    requires i < k && j < k && (start + i) % k == x
    ensures (start + j) % k == x <==> j == i
  {
    if (start + j) % k == x {
      var a, b := (start + i) / k, (start + j) / k;
      assert start + i == k * a + x && start + j == k * b + x;
      assert i - j == k * (a - b);
      if a > b {
        CDivision.MulMono(k, 1, a - b);
      } else if a < b {
        CDivision.MulMono(k, a - b, -1);
      }
    }
  }

  class Scheduler {
    const idle: int
    const prio: int -> int
    var running: int
    var ready: seq<int>

    ghost function Now(): State
      reads this
    {
      State(running, ready)
    }

    constructor (idle: int, prio: int -> int, running: int, ready: seq<int>)
      ensures this.idle == idle && this.prio == prio && Now() == State(running, ready)
    {
      this.idle, this.prio, this.running, this.ready := idle, prio, running, ready;
    }

    /** The earliest ready thread of the highest priority leaves the queue; if there is none, it is the idle thread. */
    method NextThreadToRun() returns (t: int)
      modifies this`ready
      ensures State(t, ready) == if old(ready) == [] then State(idle, []) else
                var p := MaxIndex(prio, old(ready), |old(ready)|);
                State(old(ready)[p], Without(old(ready), p))
      ensures if old(ready) == [] then t == idle && ready == [] else exists p :: Takes(prio, old(ready), p, t, ready)
    {
      if ready == [] {
        return idle;
      }
      var max := 0;
      for e := 1 to |ready|
        invariant 0 <= max < e && max == MaxIndex(prio, ready, e)
        invariant ready == old(ready)
      {
        if prio(ready[max]) < prio(ready[e]) {
          max := e;
        }
      }
      MaxTaken(prio, ready);
      t := ready[max];
      ready := Without(ready, max);
    }

    method Yield()
      modifies this
      ensures Now() == Yielded(idle, prio, old(Now()))
      ensures var pool := Pool(idle, old(Now()));
              if pool == [] then running == idle && ready == [] else exists p :: Takes(prio, pool, p, running, ready)
      ensures idle !in old(ready) ==> KeepsAll(idle, prio, old(Now()), Now())
    {
      hide KeepsAll, MaxIndex, Takes, FirstMax;
      if idle !in ready {
        YieldKeeps(idle, prio, Now());
      }
      ghost var pool := Pool(idle, Now());
      if running != idle {
        ready := ready + [running];
      }
      assert ready == pool;
      running := NextThreadToRun();
    }
  }
}
