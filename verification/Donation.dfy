/** Priority donation: who waits for whom, and what each thread's priority should be.

    A thread's effective priority should be the largest of its own base priority and the priorities of the
    threads waiting for locks it holds.  The code repairs this along the chain of lock holders, at most
    DONATION_DEPTH threads far. */
module Donation {
  import opened Common

  const DONATION_DEPTH := 8

  /** Threads and locks are known by number. */
  type Tid = int
  type Lid = int

  /** Threads and locks, without the effective priorities. */
  datatype Graph = Graph(
    base: map<Tid, int>,
    locks: map<Tid, seq<Lid>>,
    blocked: map<Tid, Option<Lid>>,
    holder: map<Lid, Option<Tid>>,
    waiters: map<Lid, seq<Tid>>)

  /** All references lead to known threads and locks. */
  ghost predicate Closed(g: Graph) {
    && g.locks.Keys == g.base.Keys && g.blocked.Keys == g.base.Keys && g.waiters.Keys == g.holder.Keys
    && (forall t, l | t in g.locks && l in g.locks[t] :: l in g.holder)
    && (forall t | t in g.blocked :: g.blocked[t].Some? ==> g.blocked[t].value in g.holder)
    && (forall l | l in g.holder :: g.holder[l].Some? ==> g.holder[l].value in g.base)
    && (forall l, w | l in g.waiters && w in g.waiters[l] :: w in g.base)
  }

  /** W waits for lock L, which is among those T holds. */
  ghost predicate WaitsFor(g: Graph, w: Tid, l: Lid, t: Tid)
    requires Closed(g) && t in g.base
  {
    l in g.locks[t] && w in g.waiters[l]
  }

  /** A lock is in the list of its holder, once, and in no other. */
  ghost predicate HeldOnce(g: Graph)
    requires Closed(g)
  {
    && (forall t | t in g.locks :: Distinct(g.locks[t]))
    && (forall t, l | t in g.locks && l in g.locks[t] :: g.holder[l] == Some(t))
    && (forall l | l in g.holder && g.holder[l].Some? :: l in g.locks[g.holder[l].value])
  }

  /** A waiting thread is in the list of the one lock it is blocked on, once, and a thread blocked on a held lock
      is in that lock's list. */
  ghost predicate WaitsOnce(g: Graph)
    requires Closed(g)
  {
    && (forall l | l in g.waiters :: Distinct(g.waiters[l]))
    && (forall l, w | l in g.waiters && w in g.waiters[l] :: g.blocked[w] == Some(l))
    && (forall w | w in g.base && g.blocked[w].Some? && g.holder[g.blocked[w].value].Some? ::
        w in g.waiters[g.blocked[w].value])
  }

  ghost predicate Consistent(g: Graph) {
    Closed(g) && HeldOnce(g) && WaitsOnce(g)
  }

  /** The largest of M and the priorities of the threads in WS. */
  function MaxOver(prio: map<Tid, int>, ws: seq<Tid>, m: int): (r: int)
    requires forall w | w in ws :: w in prio
  {
    if ws == [] then m
    else
      var w := ws[0];
      assert w in ws;
      MaxOver(prio, ws[1..], if m > prio[w] then m else prio[w])
  }

  /** The largest of M and the priorities of the threads waiting for any of LS. */
  function MaxOverLocks(prio: map<Tid, int>, waiters: map<Lid, seq<Tid>>, ls: seq<Lid>, m: int): (r: int)
    requires forall l | l in ls :: l in waiters
    requires forall l, w | l in ls && w in waiters[l] :: w in prio
  {
    if ls == [] then m
    else
      var l := ls[0];
      assert l in ls;
      MaxOverLocks(prio, waiters, ls[1..], MaxOver(prio, waiters[l], m))
  }

  lemma {:induction false} MaxOverIs(prio: map<Tid, int>, ws: seq<Tid>, m: int)
    requires forall w | w in ws :: w in prio
    ensures var r := MaxOver(prio, ws, m);
            && m <= r && (forall w | w in ws :: prio[w] <= r)
            && (r == m || exists w :: w in ws && prio[w] == r)
  {
    if ws != [] {
      var w := ws[0];
      assert w in ws;
      MaxOverIs(prio, ws[1..], if m > prio[ws[0]] then m else prio[ws[0]]);
      assert forall w | w in ws :: w == ws[0] || w in ws[1..];
    }
  }

  lemma {:induction false} MaxOverLocksIs(prio: map<Tid, int>, waiters: map<Lid, seq<Tid>>, ls: seq<Lid>, m: int)
    requires forall l | l in ls :: l in waiters
    requires forall l, w | l in ls && w in waiters[l] :: w in prio
    ensures var r := MaxOverLocks(prio, waiters, ls, m);
            && m <= r && (forall l, w | l in ls && w in waiters[l] :: prio[w] <= r)
            && (r == m || exists l, w :: l in ls && w in waiters[l] && prio[w] == r)
  {
    if ls != [] {
      var l := ls[0];
      assert l in ls;
      MaxOverIs(prio, waiters[ls[0]], m);
      var m' := MaxOver(prio, waiters[ls[0]], m);
      MaxOverLocksIs(prio, waiters, ls[1..], m');
      assert forall l | l in ls :: l == ls[0] || l in ls[1..];
    }
  }

  /** What the priority of T should be, given the others'. */
  function Computed(g: Graph, prio: map<Tid, int>, t: Tid): int
    requires Closed(g) && prio.Keys == g.base.Keys && t in g.base
  {
    MaxOverLocks(prio, g.waiters, g.locks[t], g.base[t])
  }

  ghost predicate Settled(g: Graph, prio: map<Tid, int>)
    requires Closed(g) && prio.Keys == g.base.Keys
  {
    forall t | t in g.base :: prio[t] == Computed(g, prio, t)
  }

  /** The effective priority is the least that is no less than the base and every waiter's: it is one of them. */
  lemma ComputedIs(g: Graph, prio: map<Tid, int>, t: Tid)
    requires Closed(g) && prio.Keys == g.base.Keys && t in g.base
    ensures g.base[t] <= Computed(g, prio, t)
    ensures forall l, w | WaitsFor(g, w, l, t) :: prio[w] <= Computed(g, prio, t)
    ensures Computed(g, prio, t) == g.base[t] || exists l, w :: WaitsFor(g, w, l, t) && prio[w] == Computed(g, prio, t)
  {
    MaxOverLocksIs(prio, g.waiters, g.locks[t], g.base[t]);
    var r := Computed(g, prio, t);
    if r != g.base[t] {
      var l, w :| l in g.locks[t] && w in g.waiters[l] && prio[w] == r;
      assert WaitsFor(g, w, l, t);
    }
  }

  /** The thread that holds the lock T is blocked on. */
  function Next(g: Graph, t: Tid): (h: Option<Tid>)
    requires Closed(g) && t in g.base
    ensures h.Some? ==> h.value in g.base
  {
    match g.blocked[t]
    case None => None
    case Some(l) => g.holder[l]
  }

  /** The recalculation, from T on and DEPTH threads into the chain. */
  function Recalculated(g: Graph, prio: map<Tid, int>, t: Tid, depth: nat): (r: map<Tid, int>)
    requires Closed(g) && prio.Keys == g.base.Keys && t in g.base
    ensures r.Keys == prio.Keys
    decreases DONATION_DEPTH - depth
  {
    if depth >= DONATION_DEPTH then prio
    else
      var prio' := prio[t := Computed(g, prio, t)];
      match Next(g, t)
      case None => prio'
      case Some(h) => Recalculated(g, prio', h, depth + 1)
  }

  /** The threads it visits, in order. */
  function Visited(g: Graph, t: Tid, depth: nat): (v: seq<Tid>)
    requires Closed(g) && t in g.base
    ensures |v| <= if depth < DONATION_DEPTH then DONATION_DEPTH - depth else 0
    ensures forall i | 0 <= i < |v| :: v[i] in g.base
    decreases DONATION_DEPTH - depth
  {
    if depth >= DONATION_DEPTH then []
    else
      [t] + match Next(g, t)
            case None => []
            case Some(h) => Visited(g, h, depth + 1)
  }

  /** The thread after the last one visited, where the recalculation was cut short. */
  function Beyond(g: Graph, t: Tid, depth: nat): (b: Option<Tid>)
    requires Closed(g) && t in g.base
    ensures b.Some? ==> b.value in g.base
    decreases DONATION_DEPTH - depth
  {
    if depth >= DONATION_DEPTH then Some(t)
    else
      match Next(g, t)
      case None => None
      case Some(h) => Beyond(g, h, depth + 1)
  }

  lemma {:induction false} ChainLinks(g: Graph, t: Tid, depth: nat, k: nat)
    requires Closed(g) && t in g.base && k < |Visited(g, t, depth)|
    ensures var v := Visited(g, t, depth);
            Next(g, v[k]) == if k + 1 < |v| then Some(v[k + 1]) else Beyond(g, t, depth)
    ensures Visited(g, t, depth)[0] == t
    decreases k
  {
    hide Closed, Next;
    if k > 0 {
      ChainLinks(g, Next(g, t).value, depth + 1, k - 1);
    }
  }

  // A thread that finds a lock taken.

  /** Where C joined the waiters of LOCK, its holder should have at least C's priority, and nobody else is affected. */
  lemma JoinedComputed(g: Graph, prio: map<Tid, int>, c: Tid, lock: Lid, x: Tid)
    requires Contends(g, c, lock) && prio.Keys == g.base.Keys && x in g.base
    ensures Closed(g) && Closed(Joined(g, c, lock))
    ensures Computed(Joined(g, c, lock), prio, x)
         == if g.holder[lock] == Some(x) then Max(Computed(g, prio, x), prio[c]) else Computed(g, prio, x)
  {
    var g' := Joined(g, c, lock);
    JoinedConsistent(g, c, lock);
    assert lock in g.locks[x] <==> g.holder[lock] == Some(x);
    hide Closed, HeldOnce, WaitsOnce, Computed;
    ComputedIs(g, prio, x);
    ComputedIs(g', prio, x);
    var r, r' := Computed(g, prio, x), Computed(g', prio, x);
    if r != g.base[x] {
      var l, w :| WaitsFor(g, w, l, x) && prio[w] == r;
      assert WaitsFor(g', w, l, x);
    }
    if g.holder[lock] == Some(x) {
      assert WaitsFor(g', c, lock, x);
    }
  }

  /** A thread that joins without a recalculation leaves all priorities right exactly if it does not outrank the
      holder. */
  lemma JoinExact(g: Graph, prio: map<Tid, int>, c: Tid, lock: Lid)
    requires Contends(g, c, lock) && prio.Keys == g.base.Keys && Settled(g, prio)
    ensures Consistent(Joined(g, c, lock))
    ensures Settled(Joined(g, c, lock), prio) <==> prio[c] <= prio[g.holder[lock].value]
  {
    JoinedFacts(g, c, lock);
    hide Closed, HeldOnce, WaitsOnce, Computed;
    forall x | x in g.base
      ensures Computed(Joined(g, c, lock), prio, x)
           == if g.holder[lock] == Some(x) then Max(prio[x], prio[c]) else prio[x]
    {
      JoinedComputed(g, prio, c, lock, x);
    }
  }

  /** C joins the threads waiting for LOCK. */
  function Joined(g: Graph, c: Tid, lock: Lid): Graph
    requires lock in g.waiters
  {
    g.(blocked := g.blocked[c := Some(lock)], waiters := g.waiters[lock := g.waiters[lock] + [c]])
  }

  /** C is running and asks for LOCK, which another thread holds. */
  ghost predicate Contends(g: Graph, c: Tid, lock: Lid) {
    && Consistent(g)
    && c in g.base && g.blocked[c] == None
    && lock in g.holder && g.holder[lock].Some? && g.holder[lock].value != c
  }

  lemma JoinedLists(g: Graph, c: Tid, lock: Lid)
    requires Contends(g, c, lock)
    ensures var g' := Joined(g, c, lock);
            && (forall l | l in g.waiters && l != lock :: g'.waiters[l] == g.waiters[l])
            && (forall w :: w in g'.waiters[lock] <==> w in g.waiters[lock] || w == c)
            && c !in g.waiters[lock] && Distinct(g'.waiters[lock])
  {
    hide HeldOnce;
  }

  lemma JoinedClosed(g: Graph, c: Tid, lock: Lid)
    requires Contends(g, c, lock)
    ensures Closed(Joined(g, c, lock))
  {
    hide HeldOnce, WaitsOnce;
    JoinedLists(g, c, lock);
  }

  lemma JoinedConsistent(g: Graph, c: Tid, lock: Lid)
    requires Contends(g, c, lock)
    ensures Consistent(Joined(g, c, lock))
    ensures forall l, w, x | x in g.base ::
              WaitsFor(Joined(g, c, lock), w, l, x)
              <==> WaitsFor(g, w, l, x) || (w == c && l == lock && l in g.locks[x])
  {
    JoinedLists(g, c, lock);
    JoinedClosed(g, c, lock);
  }

  lemma JoinedFacts(g: Graph, c: Tid, lock: Lid)
    requires Contends(g, c, lock)
    ensures lock in g.waiters && Closed(g) && c in g.base && lock in g.holder && g.holder[lock].Some?
    ensures g.holder[lock].value in g.base
    ensures var g' := Joined(g, c, lock);
            && Consistent(g') && Closed(g') && g'.base == g.base && c in g'.base
            && Next(g', c) == g.holder[lock]
  {
    JoinedConsistent(g, c, lock);
  }

  /** PRIO with the threads of S raised to at least P. */
  function Lifted(prio: map<Tid, int>, p: int, s: set<Tid>): (r: map<Tid, int>)
    ensures r.Keys == prio.Keys
  {
    map t | t in prio :: if t in s && prio[t] < p then p else prio[t]
  }

  /** Some thread that waits for X is C or in S. */
  ghost predicate Fed(g: Graph, c: Tid, s: set<Tid>, x: Tid)
    requires Closed(g) && x in g.base
  {
    exists l, w :: l in g.locks[x] && w in g.waiters[l] && WaitsFor(g, w, l, x) && (w == c || w in s)
  }

  /** What X's priority should be when C has joined and the threads of S are raised to C's priority. */
  lemma FedComputed(g: Graph, prio: map<Tid, int>, c: Tid, lock: Lid, s: set<Tid>, x: Tid)
    requires Contends(g, c, lock) && prio.Keys == g.base.Keys && Settled(g, prio) && x in g.base
    ensures var g' := Joined(g, c, lock);
            && Consistent(g')
            && Computed(g', Lifted(prio, prio[c], s), x) == if Fed(g', c, s, x) then Max(prio[x], prio[c]) else prio[x]
  {
    var g', p := Joined(g, c, lock), prio[c];
    var lifted := Lifted(prio, p, s);
    JoinedConsistent(g, c, lock);
    ComputedIs(g, prio, x);
    ComputedIs(g', lifted, x);
    var r, r0 := Computed(g', lifted, x), Computed(g, prio, x);
    hide Computed, Joined, Consistent, Closed;
    // No less than before ...
    if r0 != g.base[x] {
      var l, w :| WaitsFor(g, w, l, x) && prio[w] == r0;
      assert WaitsFor(g', w, l, x);
    }
    assert r0 <= r;
    // ... no less than P if there is a raised waiter ...
    if Fed(g', c, s, x) {
      var l, w :| WaitsFor(g', w, l, x) && (w == c || w in s);
      assert p <= r;
    }
    // ... and no more than those two.
    if r != g.base[x] {
      var l, w :| WaitsFor(g', w, l, x) && lifted[w] == r;
    }
  }

  ghost function SetOf<X>(s: seq<X>): set<X> {
    set x | x in s
  }

  /** T, blocked on a lock that H holds, waits for H. */
  lemma NextWaits(g: Graph, t: Tid)
    requires Consistent(g) && t in g.base && Next(g, t).Some?
    ensures g.blocked[t].Some? && WaitsFor(g, t, g.blocked[t].value, Next(g, t).value)
  {
  }

  /** A thread waits for at most one other, its Next. */
  lemma WaitsIsNext(g: Graph, w: Tid, l: Lid, x: Tid)
    requires Consistent(g) && x in g.base && WaitsFor(g, w, l, x)
    ensures w in g.base && Next(g, w) == Some(x)
  {
  }

  /** Recalculating from a thread that C's priority reaches raises exactly the threads visited. */
  lemma {:induction false} RecalculatedLifts(g: Graph, prio: map<Tid, int>, c: Tid, lock: Lid, s: set<Tid>, t: Tid,
                                             depth: nat)
    requires Contends(g, c, lock) && prio.Keys == g.base.Keys && Settled(g, prio) && t in g.base
    requires Consistent(Joined(g, c, lock)) && Fed(Joined(g, c, lock), c, s, t)
    ensures var g' := Joined(g, c, lock);
            Recalculated(g', Lifted(prio, prio[c], s), t, depth)
                == Lifted(prio, prio[c], s + SetOf(Visited(g', t, depth)))
    decreases DONATION_DEPTH - depth
  {
    hide *;
    JoinedFacts(g, c, lock);
    var g', p := Joined(g, c, lock), prio[c];
    VisitedSet(g', t, depth);
    RecalculatedOnce(g', Lifted(prio, p, s), t, depth);
    if depth < DONATION_DEPTH {
      FedComputed(g, prio, c, lock, s, t);
      LiftedOne(prio, p, s, t);
      if Next(g', t).Some? {
        var h := Next(g', t).value;
        NextFeeds(g', c, s + {t}, t);
        RecalculatedLifts(g, prio, c, lock, s + {t}, h, depth + 1);
        assert s + {t} + SetOf(Visited(g', h, depth + 1)) == s + SetOf(Visited(g', t, depth));
      } else {
        assert s + SetOf(Visited(g', t, depth)) == s + {t};
      }
    } else {
      assert s + {} == s;
    }
  }

  lemma VisitedSet(g: Graph, t: Tid, depth: nat)
    requires Closed(g) && t in g.base
    ensures SetOf(Visited(g, t, depth)) == if depth >= DONATION_DEPTH then {} else
              {t} + if Next(g, t).None? then {} else SetOf(Visited(g, Next(g, t).value, depth + 1))
  {
    hide Closed;
  }

  lemma RecalculatedOnce(g: Graph, prio: map<Tid, int>, t: Tid, depth: nat)
    requires Closed(g) && prio.Keys == g.base.Keys && t in g.base
    ensures Recalculated(g, prio, t, depth) == if depth >= DONATION_DEPTH then prio else
              var prio' := prio[t := Computed(g, prio, t)];
              if Next(g, t).None? then prio' else Recalculated(g, prio', Next(g, t).value, depth + 1)
  {
    hide Closed, Computed;
  }

  lemma LiftedOne(prio: map<Tid, int>, p: int, s: set<Tid>, t: Tid)
    requires t in prio
    ensures Lifted(prio, p, s)[t := Max(prio[t], p)] == Lifted(prio, p, s + {t})
  {
  }

  lemma NextFeeds(g: Graph, c: Tid, s: set<Tid>, t: Tid)
    requires Consistent(g) && t in g.base && t in s && Next(g, t).Some?
    ensures Fed(g, c, s, Next(g, t).value)
  {
    NextWaits(g, t);
  }

  lemma ConsistentClosed(g: Graph)
    requires Consistent(g)
    ensures Closed(g)
  {
  }

  /** Where C's priority gets to: the threads visited, and the one where the recalculation was cut short. */
  lemma FedIs(g: Graph, c: Tid, h: Tid, x: Tid)
    requires Consistent(g) && c in g.base && h in g.base && Next(g, c) == Some(h) && x in g.base
    ensures Fed(g, c, SetOf(Visited(g, h, 0)), x) <==> x in Visited(g, h, 0) || Beyond(g, h, 0) == Some(x)
  {
    hide Consistent, Closed, Visited, Beyond, Fed;
    ConsistentClosed(g);
    if Fed(g, c, SetOf(Visited(g, h, 0)), x) {
      FedOnly(g, c, h, x);
    }
    FedAll(g, c, h, x);
  }

  lemma FedOnly(g: Graph, c: Tid, h: Tid, x: Tid)
    requires Consistent(g) && c in g.base && h in g.base && Next(g, c) == Some(h) && x in g.base
    requires Fed(g, c, SetOf(Visited(g, h, 0)), x)
    ensures x in Visited(g, h, 0) || Beyond(g, h, 0) == Some(x)
  {
    hide Consistent, Closed, Beyond;
    ConsistentClosed(g);
    var v := Visited(g, h, 0);
    var l, w :| l in g.locks[x] && w in g.waiters[l] && WaitsFor(g, w, l, x) && (w == c || w in SetOf(v));
    WaitsIsNext(g, w, l, x);
    if w in v {
      var k :| 0 <= k < |v| && v[k] == w;
      ChainLinks(g, h, 0, k);
    }
  }

  lemma FedAll(g: Graph, c: Tid, h: Tid, x: Tid)
    requires Consistent(g) && c in g.base && h in g.base && Next(g, c) == Some(h) && x in g.base
    ensures x in Visited(g, h, 0) || Beyond(g, h, 0) == Some(x) ==> Fed(g, c, SetOf(Visited(g, h, 0)), x)
  {
    ConsistentClosed(g);
    var v := Visited(g, h, 0);
    assert v[0] == h;
    hide Consistent, Closed, Beyond, Visited, Next;
    if x == h {
      NextWaits(g, c);
      assert Fed(g, c, SetOf(v), h);
    } else if x in v {
      var k :| 0 <= k < |v| && v[k] == x;
      ChainLinks(g, h, 0, k - 1);
      NextFeeds(g, c, SetOf(v), v[k - 1]);
    } else if Beyond(g, h, 0) == Some(x) {
      ChainLinks(g, h, 0, |v| - 1);
      NextFeeds(g, c, SetOf(v), v[|v| - 1]);
    }
  }

  /** Whether the chain of holders from H is short enough, or its first thread not visited needs no raising. */
  ghost predicate WithinReach(g: Graph, prio: map<Tid, int>, h: Tid, p: int)
    requires Closed(g) && prio.Keys == g.base.Keys && h in g.base
  {
    match Beyond(g, h, 0)
    case None => true
    case Some(x) => x in Visited(g, h, 0) || p <= prio[x]
  }

  /** A thread that finds a lock taken raises the threads along the chain to its priority, and leaves every
      thread's priority right exactly when the chain is within reach.  The waits-for graph may be cyclic. */
  lemma ContendedAcquire(g: Graph, prio: map<Tid, int>, c: Tid, lock: Lid)
    requires Contends(g, c, lock) && prio.Keys == g.base.Keys && Settled(g, prio)
    ensures var g', h := Joined(g, c, lock), g.holder[lock].value;
            && Consistent(g') && h in g.base
            && var prio' := Recalculated(g', prio, h, 0);
               && prio' == Lifted(prio, prio[c], SetOf(Visited(g', h, 0)))
               && (Settled(g', prio') <==> WithinReach(g', prio, h, prio[c]))
  {
    hide Consistent, Closed, Computed, Visited, Beyond, Recalculated, Lifted, Fed, Contends, Joined, Next;
    JoinedFacts(g, c, lock);
    FirstRecalculation(g, prio, c, lock);
    var g', h, p := Joined(g, c, lock), g.holder[lock].value, prio[c];
    var v := Visited(g', h, 0);
    var prio' := Lifted(prio, p, SetOf(v));
    forall x | x in g.base
      ensures prio'[x] == Computed(g', prio', x) <==> (Beyond(g', h, 0) == Some(x) && x !in v ==> p <= prio[x])
    {
      FedComputed(g, prio, c, lock, SetOf(v), x);
      FedIs(g', c, h, x);
      LiftedAt(prio, p, SetOf(v), x);
    }
  }

  lemma LiftedAt(prio: map<Tid, int>, p: int, s: set<Tid>, x: Tid)
    requires x in prio
    ensures Lifted(prio, p, s)[x] == if x in s then Max(prio[x], p) else prio[x]
  {
  }

  lemma FirstRecalculation(g: Graph, prio: map<Tid, int>, c: Tid, lock: Lid)
    requires Contends(g, c, lock) && prio.Keys == g.base.Keys && Settled(g, prio)
    requires Closed(Joined(g, c, lock)) && g.holder[lock].value in g.base
    ensures var g', h := Joined(g, c, lock), g.holder[lock].value;
            Recalculated(g', prio, h, 0) == Lifted(prio, prio[c], SetOf(Visited(g', h, 0)))
  {
    hide Consistent, Closed, Computed, Visited, Recalculated, Contends, Joined, Next;
    JoinedFacts(g, c, lock);
    var g', h := Joined(g, c, lock), g.holder[lock].value;
    NextWaits(g', c);
    assert Fed(g', c, {}, h);
    assert Lifted(prio, prio[c], {}) == prio;
    RecalculatedLifts(g, prio, c, lock, {}, h, 0);
    assert {} + SetOf(Visited(g', h, 0)) == SetOf(Visited(g', h, 0));
  }

  // Steps of a running thread that change only its own inputs.

  lemma {:induction false} MaxOverSame(prio: map<Tid, int>, prio': map<Tid, int>, ws: seq<Tid>, m: int)
    requires forall w | w in ws :: w in prio && w in prio' && prio[w] == prio'[w]
    ensures MaxOver(prio, ws, m) == MaxOver(prio', ws, m)
  {
    if ws != [] {
      var w := ws[0];
      assert w in ws;
      MaxOverSame(prio, prio', ws[1..], if m > prio[ws[0]] then m else prio[ws[0]]);
    }
  }

  lemma {:induction false} MaxOverLocksSame(prio: map<Tid, int>, waiters: map<Lid, seq<Tid>>, prio': map<Tid, int>,
                                                  waiters': map<Lid, seq<Tid>>, ls: seq<Lid>, m: int)
    requires forall l | l in ls :: l in waiters && l in waiters' && waiters[l] == waiters'[l]
    requires forall l, w | l in ls && w in waiters[l] :: w in prio && w in prio' && prio[w] == prio'[w]
    ensures MaxOverLocks(prio, waiters, ls, m) == MaxOverLocks(prio', waiters', ls, m)
  {
    if ls != [] {
      var l := ls[0];
      assert l in ls;
      MaxOverSame(prio, prio', waiters[ls[0]], m);
      MaxOverLocksSame(prio, waiters, prio', waiters', ls[1..], MaxOver(prio, waiters[ls[0]], m));
    }
  }

  /** X's inputs are the same in both graphs. */
  ghost predicate SameInputs(g: Graph, g': Graph, x: Tid)
    requires Closed(g) && Closed(g') && x in g.base
  {
    && x in g'.base && g'.base[x] == g.base[x] && g'.locks[x] == g.locks[x]
    && forall l | l in g.locks[x] :: l in g'.waiters && g'.waiters[l] == g.waiters[l]
  }

  lemma ComputedSame(g: Graph, prio: map<Tid, int>, g': Graph, prio': map<Tid, int>, x: Tid, c: Tid)
    requires Closed(g) && Closed(g') && x in g.base && SameInputs(g, g', x)
    requires prio.Keys == g.base.Keys && prio'.Keys == g'.base.Keys == g.base.Keys
    requires forall t | t in prio && t != c :: prio'[t] == prio[t]
    requires NotWaiting(g, c)
    ensures Computed(g', prio', x) == Computed(g, prio, x)
  {
    MaxOverLocksSame(prio, g.waiters, prio', g'.waiters, g.locks[x], g.base[x]);
  }

  ghost predicate NotWaiting(g: Graph, c: Tid) {
    forall l | l in g.waiters :: c !in g.waiters[l]
  }

  lemma RunningNotWaiting(g: Graph, c: Tid)
    requires Consistent(g) && c in g.base && g.blocked[c] == None
    ensures Closed(g) && NotWaiting(g, c) && Next(g, c) == None
  {
  }

  /** If C, which waits for nothing, is the only thread whose inputs change, recalculating C makes all right again. */
  lemma RunningRecalculates(g: Graph, g': Graph, prio: map<Tid, int>, c: Tid)
    requires Closed(g) && NotWaiting(g, c) && Consistent(g')
    requires prio.Keys == g.base.Keys == g'.base.Keys && Settled(g, prio)
    requires c in g.base && c in g'.blocked && g'.blocked[c] == None
    requires forall x | x in g.base && x != c :: SameInputs(g, g', x)
    ensures Closed(g') && Recalculated(g', prio, c, 0) == prio[c := Computed(g', prio, c)]
    ensures Settled(g', Recalculated(g', prio, c, 0))
  {
    hide Consistent, Closed, Computed, Recalculated, SameInputs, NotWaiting, Next;
    RunningNotWaiting(g', c);
    RecalculatedOnce(g', prio, c, 0);
    var prio' := prio[c := Computed(g', prio, c)];
    forall x | x in g.base
      ensures prio'[x] == Computed(g', prio', x)
    {
      if x != c {
        ComputedSame(g, prio, g', prio', x, c);
      } else {
        SameAsItself(g', c);
        ComputedSame(g', prio, g', prio', c, c);
      }
    }
  }

  lemma SameAsItself(g: Graph, x: Tid)
    requires Closed(g) && x in g.base
    ensures SameInputs(g, g, x)
  {
  }

  /** Changing one's own base priority and recalculating keeps every priority right. */
  lemma SetPriorityKeeps(g: Graph, prio: map<Tid, int>, c: Tid, base: int)
    requires Consistent(g) && prio.Keys == g.base.Keys && Settled(g, prio) && c in g.base && c in g.blocked
             && g.blocked[c] == None
    ensures var g' := g.(base := g.base[c := base]);
            Consistent(g') && Settled(g', Recalculated(g', prio, c, 0))
  {
    hide Consistent, Settled, Recalculated, NotWaiting, SameInputs, Computed;
    var g' := g.(base := g.base[c := base]);
    RunningNotWaiting(g, c);
    RebasedConsistent(g, c, base);
    RunningRecalculates(g, g', prio, c);
  }

  lemma RebasedConsistent(g: Graph, c: Tid, base: int)
    requires Consistent(g) && c in g.base
    ensures var g' := g.(base := g.base[c := base]);
            Consistent(g') && forall x | x in g.base && x != c :: SameInputs(g, g', x)
  {
    var g' := g.(base := g.base[c := base]);
    assert g'.base.Keys == g.base.Keys;
    assert Closed(g');
    assert HeldOnce(g');
    assert WaitsOnce(g');
  }

  function RemoveAt<X>(s: seq<X>, i: nat): seq<X>
    requires i < |s|
  {
    s[..i] + s[i + 1..]
  }

  lemma RemoveAtIs<X>(s: seq<X>, i: nat)
    requires i < |s| && Distinct(s)
    ensures Distinct(RemoveAt(s, i))
    ensures forall x :: x in RemoveAt(s, i) <==> x in s && x != s[i]
  {
    var r := RemoveAt(s, i);
    assert forall x | x in s :: exists j :: 0 <= j < |s| && s[j] == x;
    assert forall j | 0 <= j < |s| && j != i :: s[j] == if j < i then r[j] else r[j - 1];
    assert forall j | 0 <= j < |r| :: r[j] == if j < i then s[j] else s[j + 1];
  }

  /** C lets go of LOCK, the I-th lock it holds, and wakes the P-th thread waiting for it, if any waits. */
  function Released(g: Graph, c: Tid, lock: Lid, i: nat, p: nat): Graph
    requires c in g.locks && i < |g.locks[c]| && lock in g.waiters && (g.waiters[lock] != [] ==> p < |g.waiters[lock]|)
  {
    g.(holder := g.holder[lock := None],
       locks := g.locks[c := RemoveAt(g.locks[c], i)],
       waiters := if g.waiters[lock] == [] then g.waiters else g.waiters[lock := RemoveAt(g.waiters[lock], p)])
  }

  ghost predicate Releases(g: Graph, c: Tid, lock: Lid, i: nat, p: nat) {
    && Consistent(g)
    && c in g.base && g.blocked[c] == None
    && i < |g.locks[c]| && g.locks[c][i] == lock
    && (g.waiters[lock] != [] ==> p < |g.waiters[lock]|)
  }

  lemma ReleasedClosed(g: Graph, c: Tid, lock: Lid, i: nat, p: nat)
    requires Releases(g, c, lock, i, p)
    ensures Closed(Released(g, c, lock, i, p))
  {
    hide HeldOnce, WaitsOnce;
  }

  lemma ReleasedHeld(g: Graph, c: Tid, lock: Lid, i: nat, p: nat)
    requires Releases(g, c, lock, i, p) && Closed(Released(g, c, lock, i, p))
    ensures HeldOnce(Released(g, c, lock, i, p))
  {
    hide WaitsOnce, RemoveAt;
    var g' := Released(g, c, lock, i, p);
    RemoveAtIs(g.locks[c], i);
    assert forall t | t in g'.locks && t != c :: g'.locks[t] == g.locks[t];
    assert forall l | l in g'.holder && g'.holder[l].Some? :: l != lock && l in g'.locks[g'.holder[l].value];
  }

  lemma ReleasedWaits(g: Graph, c: Tid, lock: Lid, i: nat, p: nat)
    requires Releases(g, c, lock, i, p) && Closed(Released(g, c, lock, i, p))
    ensures WaitsOnce(Released(g, c, lock, i, p))
    ensures g.waiters[lock] != [] ==> g.waiters[lock][p] !in Released(g, c, lock, i, p).waiters[lock]
    ensures forall w | w in g.waiters[lock] && w != g.waiters[lock][p] :: w in Released(g, c, lock, i, p).waiters[lock]
  {
    var g' := Released(g, c, lock, i, p);
    if g.waiters[lock] != [] {
      RemoveAtIs(g.waiters[lock], p);
    }
    hide RemoveAt;
    assert forall l | l in g'.waiters && l != lock :: g'.waiters[l] == g.waiters[l];
    assert forall w | w in g'.waiters[lock] :: w in g.waiters[lock];
  }

  lemma ReleasedSame(g: Graph, c: Tid, lock: Lid, i: nat, p: nat, x: Tid)
    requires Releases(g, c, lock, i, p) && Closed(Released(g, c, lock, i, p)) && x in g.base && x != c
    ensures SameInputs(g, Released(g, c, lock, i, p), x)
  {
    assert g.holder[lock] == Some(c);
  }

  /** Releasing a lock keeps every priority right, whichever thread is woken. */
  lemma ReleaseKeeps(g: Graph, prio: map<Tid, int>, c: Tid, lock: Lid, i: nat, p: nat)
    requires Releases(g, c, lock, i, p) && prio.Keys == g.base.Keys && Settled(g, prio)
    ensures var g' := Released(g, c, lock, i, p);
            Consistent(g') && Settled(g', Recalculated(g', prio, c, 0))
  {
    ReleasesFacts(g, c, lock, i, p);
    ReleasedClosed(g, c, lock, i, p);
    ReleasedHeld(g, c, lock, i, p);
    ReleasedWaits(g, c, lock, i, p);
    hide Closed, HeldOnce, WaitsOnce, Settled, Recalculated, NotWaiting, SameInputs, Computed, Releases, RemoveAt;
    var g' := Released(g, c, lock, i, p);
    assert Consistent(g');
    forall x | x in g.base && x != c
      ensures SameInputs(g, g', x)
    {
      ReleasedSame(g, c, lock, i, p, x);
    }
    RunningRecalculates(g, g', prio, c);
  }

  lemma ReleasesFacts(g: Graph, c: Tid, lock: Lid, i: nat, p: nat)
    requires Releases(g, c, lock, i, p)
    ensures c in g.locks && i < |g.locks[c]| && lock in g.waiters && (g.waiters[lock] != [] ==> p < |g.waiters[lock]|)
    ensures Closed(g) && NotWaiting(g, c) && c in g.blocked && g.blocked[c] == None
  {
  }

  // A thread that finds a lock free.

  /** C gets LOCK. */
  function Acquired(g: Graph, c: Tid, lock: Lid): Graph
    requires c in g.locks
  {
    g.(holder := g.holder[lock := Some(c)], blocked := g.blocked[c := None], locks := g.locks[c := g.locks[c] + [lock]])
  }

  /** C finds LOCK free: either it did not wait, or it was woken and waits no more. */
  ghost predicate FindsFree(g: Graph, c: Tid, lock: Lid) {
    && Consistent(g)
    && c in g.base && lock in g.holder && g.holder[lock] == None
    && (g.blocked[c] == None || g.blocked[c] == Some(lock)) && c !in g.waiters[lock]
  }

  /** Every other thread blocked on LOCK is still in its list. */
  ghost predicate NoneStray(g: Graph, c: Tid, lock: Lid)
    requires Closed(g) && lock in g.waiters
  {
    forall w | w in g.base && w != c && g.blocked[w] == Some(lock) :: w in g.waiters[lock]
  }

  lemma AcquiredClosed(g: Graph, c: Tid, lock: Lid)
    requires FindsFree(g, c, lock)
    ensures Closed(Acquired(g, c, lock)) && NotWaiting(g, c)
    ensures forall l :: l in Acquired(g, c, lock).locks[c] <==> l in g.locks[c] || l == lock
  {
    hide HeldOnce;
    var g' := Acquired(g, c, lock);
    assert g'.base.Keys == g.base.Keys == g'.locks.Keys == g'.blocked.Keys && g'.holder.Keys == g.holder.Keys;
    assert forall l | l in g'.locks[c] :: l in g.locks[c] || l == lock;
  }

  lemma AcquiredConsistent(g: Graph, c: Tid, lock: Lid)
    requires FindsFree(g, c, lock) && NoneStray(g, c, lock)
    ensures Consistent(Acquired(g, c, lock))
  {
    AcquiredClosed(g, c, lock);
    var g' := Acquired(g, c, lock);
    assert lock !in g.locks[c];
    assert forall t | t in g.locks && t != c :: g'.locks[t] == g.locks[t];
    hide Closed;
    assert HeldOnce(g');
    assert WaitsOnce(g');
  }

  lemma AcquiredInputs(g: Graph, c: Tid, lock: Lid)
    requires FindsFree(g, c, lock) && Closed(Acquired(g, c, lock))
    ensures var g' := Acquired(g, c, lock);
            && (forall l, w :: WaitsFor(g', w, l, c) <==> WaitsFor(g, w, l, c) || (l == lock && w in g.waiters[lock]))
            && (forall x | x in g.base && x != c :: SameInputs(g, g', x))
  {
  }

  lemma AcquiredOwn(g: Graph, prio: map<Tid, int>, c: Tid, lock: Lid)
    requires FindsFree(g, c, lock) && prio.Keys == g.base.Keys && Closed(Acquired(g, c, lock))
    requires Computed(g, prio, c) == prio[c]
    ensures Computed(Acquired(g, c, lock), prio, c) == prio[c]
            <==> forall w | w in g.waiters[lock] :: prio[w] <= prio[c]
  {
    var g' := Acquired(g, c, lock);
    assert Closed(g) && lock in g.waiters;
    AcquiredInputs(g, c, lock);
    ComputedIs(g, prio, c);
    ComputedIs(g', prio, c);
    hide FindsFree, Closed, Computed, WaitsFor, SameInputs;
    var r := Computed(g', prio, c);
    if r == prio[c] {
      forall w | w in g.waiters[lock]
        ensures prio[w] <= prio[c]
      {
        assert WaitsFor(g', w, lock, c);
      }
    } else if r != g.base[c] {
      var l, w :| WaitsFor(g', w, l, c) && prio[w] == r;
    }
  }

  /** Taking a free lock does not recalculate anything.  It leaves every priority right exactly when no thread
      still waiting for the lock has a higher priority than the taker. */
  lemma AcquireExact(g: Graph, prio: map<Tid, int>, c: Tid, lock: Lid)
    requires FindsFree(g, c, lock) && prio.Keys == g.base.Keys && Settled(g, prio)
    ensures var g' := Acquired(g, c, lock);
            && Closed(g') && g'.base == g.base
            && (Settled(g', prio) <==> forall w | w in g.waiters[lock] :: prio[w] <= prio[c])
  {
    assert Closed(g) && c in g.base && lock in g.waiters && c in g.locks;
    hide FindsFree, Closed, Computed, SameInputs, NotWaiting;
    AcquiredClosed(g, c, lock);
    var g' := Acquired(g, c, lock);
    AcquiredInputs(g, c, lock);
    AcquiredOwn(g, prio, c, lock);
    forall x | x in g.base && x != c
      ensures Computed(g', prio, x) == Computed(g, prio, x)
    {
      ComputedSame(g, prio, g', prio, x, c);
    }
  }

  // What the equation says of whole chains.

  /** The thread K links down the chain of holders from T. */
  function Down(g: Graph, t: Tid, k: nat): (d: Option<Tid>)
    requires Closed(g) && t in g.base
    ensures d.Some? ==> d.value in g.base
    decreases k
  {
    if k == 0 then Some(t)
    else
      match Next(g, t)
      case None => None
      case Some(h) => Down(g, h, k - 1)
  }

  /** No thread on the chain is below the priority of a thread waiting further up, however long the chain. */
  lemma {:induction false} NoInversion(g: Graph, prio: map<Tid, int>, w: Tid, k: nat)
    requires Consistent(g) && prio.Keys == g.base.Keys && Settled(g, prio) && w in g.base
    requires Down(g, w, k).Some?
    ensures g.base[w] <= prio[w] <= prio[Down(g, w, k).value]
    decreases k
  {
    hide Closed, Consistent, Computed, WaitsFor;
    ConsistentClosed(g);
    ComputedIs(g, prio, w);
    if k > 0 {
      var h := Next(g, w).value;
      NextWaits(g, w);
      ComputedIs(g, prio, h);
      NoInversion(g, prio, h, k - 1);
    }
  }

  /** Threads wait only for threads of a higher rank: there is no deadlock. */
  ghost predicate Ranked(g: Graph, rank: map<Tid, nat>)
    requires Closed(g)
  {
    rank.Keys == g.base.Keys && forall t | t in g.base && Next(g, t).Some? :: rank[t] < rank[Next(g, t).value]
  }

  /** Without deadlock a priority is never higher than it has to be: some thread up the chain has it as its own. */
  lemma {:induction false} DonatedBy(g: Graph, prio: map<Tid, int>, rank: map<Tid, nat>, t: Tid)
    returns (w: Tid, k: nat)
    requires Consistent(g) && prio.Keys == g.base.Keys && Settled(g, prio) && Ranked(g, rank) && t in g.base
    ensures w in g.base && Down(g, w, k) == Some(t) && g.base[w] == prio[t]
    decreases rank[t]
  {
    hide Computed;
    ConsistentClosed(g);
    ComputedIs(g, prio, t);
    if prio[t] == g.base[t] {
      w, k := t, 0;
    } else {
      var l, v :| WaitsFor(g, v, l, t) && prio[v] == prio[t];
      WaitsIsNext(g, v, l, t);
      w, k := DonatedBy(g, prio, rank, v);
      DownOne(g, w, k, v);
      k := k + 1;
    }
  }

  lemma {:induction false} DownOne(g: Graph, w: Tid, k: nat, v: Tid)
    requires Closed(g) && w in g.base && Down(g, w, k) == Some(v)
    ensures Down(g, w, k + 1) == Next(g, v)
    decreases k
  {
    hide Closed;
    if k > 0 {
      DownOne(g, Next(g, w).value, k - 1, v);
    }
  }

  // Releasing a lock and the thread woken by it.

  /** The P-th thread waiting for LOCK is among those with the highest priority. */
  ghost predicate PicksMax(g: Graph, prio: map<Tid, int>, lock: Lid, p: nat)
    requires Closed(g) && lock in g.waiters && prio.Keys == g.base.Keys
  {
    p < |g.waiters[lock]| &&
    var m := g.waiters[lock][p];
    m in g.waiters[lock] && forall w | w in g.waiters[lock] :: prio[w] <= prio[m]
  }

  /** The thread that a release wakes does not outrank the releasing thread, so a running thread that no ready
      thread outranks is not preempted inside the release. */
  lemma ReleaseUndisturbed(g: Graph, prio: map<Tid, int>, c: Tid, lock: Lid, i: nat, p: nat, ready: set<Tid>)
    requires Releases(g, c, lock, i, p) && prio.Keys == g.base.Keys && Settled(g, prio) && g.waiters[lock] != []
    requires ready <= g.base.Keys && forall r | r in ready :: prio[r] <= prio[c]
    ensures forall r | r in ready + {g.waiters[lock][p]} :: prio[r] <= prio[c]
  {
    var w := g.waiters[lock][p];
    assert WaitsFor(g, w, lock, c);
    ComputedIs(g, prio, c);
  }

  /** The priorities of the threads other than C do not change when C releases. */
  lemma ReleaseChangesOne(g: Graph, prio: map<Tid, int>, c: Tid, lock: Lid, i: nat, p: nat)
    requires Releases(g, c, lock, i, p) && prio.Keys == g.base.Keys && Settled(g, prio)
    ensures var g' := Released(g, c, lock, i, p);
            && Closed(g') && Recalculated(g', prio, c, 0) == prio[c := Computed(g', prio, c)]
            && g.base[c] <= Computed(g', prio, c) <= prio[c]
  {
    ReleasesFacts(g, c, lock, i, p);
    ReleasedClosed(g, c, lock, i, p);
    ReleasedHeld(g, c, lock, i, p);
    ReleasedWaits(g, c, lock, i, p);
    var g' := Released(g, c, lock, i, p);
    ReleasedOwn(g, c, lock, i, p);
    ComputedIs(g, prio, c);
    ComputedIs(g', prio, c);
    hide Closed, HeldOnce, WaitsOnce, Recalculated, Computed, Releases, RemoveAt, WaitsFor, NotWaiting;
    RunningNotWaiting(g', c);
    RecalculatedOnce(g', prio, c, 0);
  }

  lemma ReleasedOwn(g: Graph, c: Tid, lock: Lid, i: nat, p: nat)
    requires Releases(g, c, lock, i, p) && Closed(Released(g, c, lock, i, p))
    ensures forall l, w | WaitsFor(Released(g, c, lock, i, p), w, l, c) :: WaitsFor(g, w, l, c)
  {
    RemoveAtIs(g.locks[c], i);
    hide RemoveAt;
  }

  /** C lets go of a lock and the waiting thread of highest priority, which that wakes, takes it: every priority is
      right again. */
  lemma HandOff(g: Graph, prio: map<Tid, int>, c: Tid, lock: Lid, i: nat, p: nat)
    requires Releases(g, c, lock, i, p) && prio.Keys == g.base.Keys && Settled(g, prio)
    requires lock in g.waiters && Closed(g) && PicksMax(g, prio, lock, p)
    ensures var g', w := Released(g, c, lock, i, p), g.waiters[lock][p];
            && Consistent(g') && w in g'.base
            && var prio' := Recalculated(g', prio, c, 0);
               && FindsFree(g', w, lock) && NoneStray(g', w, lock)
               && Consistent(Acquired(g', w, lock)) && Settled(Acquired(g', w, lock), prio')
  {
    var g', w := Released(g, c, lock, i, p), g.waiters[lock][p];
    HandOffFree(g, c, lock, i, p);
    assert forall v | v in g'.waiters[lock] :: prio[v] <= prio[w] by {
      RemoveAtIs(g.waiters[lock], p);
    }
    hide Releases, Settled, Closed, Computed, Recalculated, HeldOnce, WaitsOnce, RemoveAt, FindsFree, NoneStray;
    ReleaseKeeps(g, prio, c, lock, i, p);
    ReleaseChangesOne(g, prio, c, lock, i, p);
    AcquiredConsistent(g', w, lock);
    AcquireExact(g', Recalculated(g', prio, c, 0), w, lock);
  }

  lemma HandOffFree(g: Graph, c: Tid, lock: Lid, i: nat, p: nat)
    requires Releases(g, c, lock, i, p) && lock in g.waiters && Closed(g) && p < |g.waiters[lock]|
    ensures var g', w := Released(g, c, lock, i, p), g.waiters[lock][p];
            && w in g.base && w != c && c !in g'.waiters[lock]
            && FindsFree(g', w, lock) && NoneStray(g', w, lock)
  {
    ReleasedClosed(g, c, lock, i, p);
    ReleasedHeld(g, c, lock, i, p);
    ReleasedWaits(g, c, lock, i, p);
    assert g.holder[lock] == Some(c);
  }
}
