/** Locks with priority donation, as steps of running threads: lock_acquire, lock_release and thread_set_priority.

    The running thread is passed to each operation.  Interrupts are off inside all of them, so each is one step. */
module Locks {
  import opened Common
  import opened Donation

  datatype State = State(graph: Graph, prio: map<Tid, int>)

  datatype Event =
    | Ask(c: Tid, lock: Lid)
    | Take(c: Tid, lock: Lid)
    | Release(c: Tid, lock: Lid, i: nat, p: nat)
    | SetBase(c: Tid, base: int)

  /** Every thread's priority is the largest of its base priority and those of the threads waiting for its locks. */
  ghost predicate Good(s: State) {
    Consistent(s.graph) && s.prio.Keys == s.graph.base.Keys && Settled(s.graph, s.prio)
  }

  /** The P-th of WS is the first with the highest priority. */
  ghost predicate FirstHighest(prio: map<Tid, int>, ws: seq<Tid>, p: nat) {
    && p < |ws| && (forall w | w in ws :: w in prio)
    && (forall j | 0 <= j < |ws| :: ws[j] in prio && ws[p] in prio && prio[ws[j]] <= prio[ws[p]])
    && (forall j | 0 <= j < p :: ws[j] in prio && prio[ws[j]] < prio[ws[p]])
  }

  /** What the code demands of the caller, and which thread it wakes. */
  ghost predicate Possible(s: State, e: Event) {
    match e
    case Ask(c, lock) => Contends(s.graph, c, lock)
    case Take(c, lock) => FindsFree(s.graph, c, lock)
    case Release(c, lock, i, p) =>
      && Releases(s.graph, c, lock, i, p)
      && (s.graph.waiters[lock] != [] ==> FirstHighest(s.prio, s.graph.waiters[lock], p))
    case SetBase(c, base) =>
      Consistent(s.graph) && c in s.graph.base && c in s.graph.blocked && s.graph.blocked[c] == None
  }

  ghost function After(s: State, e: Event): (s': State)
    requires Good(s) && Possible(s, e)
    ensures s'.prio.Keys == s'.graph.base.Keys
  {
    var g := s.graph;
    match e
    case Ask(c, lock) =>
      JoinedConsistent(g, c, lock);
      State(Joined(g, c, lock), Recalculated(Joined(g, c, lock), s.prio, g.holder[lock].value, 0))
    case Take(c, lock) => State(Acquired(g, c, lock), s.prio)
    case Release(c, lock, i, p) =>
      ReleaseKeeps(g, s.prio, c, lock, i, p);
      State(Released(g, c, lock, i, p), Recalculated(Released(g, c, lock, i, p), s.prio, c, 0))
    case SetBase(c, base) =>
      SetPriorityKeeps(g, s.prio, c, base);
      var g' := g.(base := g.base[c := base]);
      State(g', Recalculated(g', s.prio, c, 0))
  }

  /** What a caller can check before the call: for a lock that is taken, that the chain of holders is not longer than
      the recalculation follows it (or needs no change there); for one that is free, that no thread with a higher
      priority waits for it and no other woken thread is on its way to it. */
  ghost predicate Clean(s: State, e: Event)
    requires Good(s) && Possible(s, e)
  {
    match e
    case Ask(c, lock) =>
      JoinedConsistent(s.graph, c, lock);
      WithinReach(Joined(s.graph, c, lock), s.prio, s.graph.holder[lock].value, s.prio[c])
    case Take(c, lock) =>
      NoneStray(s.graph, c, lock) && forall w | w in s.graph.waiters[lock] :: s.prio[w] <= s.prio[c]
    case _ => true
  }

  /** A step leaves all priorities right if and only if its condition held. */
  lemma StepExact(s: State, e: Event)
    requires Good(s) && Possible(s, e)
    ensures Good(After(s, e)) <==> Clean(s, e)
  {
    hide Consistent, Closed, Settled, Recalculated, Contends, FindsFree, Releases, WithinReach, NoneStray, Joined,
         Acquired, Released, FirstHighest;
    var g := s.graph;
    match e {
      case Ask(c, lock) => ContendedAcquire(g, s.prio, c, lock);
      case Take(c, lock) => TakeExact(s, c, lock);
      case Release(c, lock, i, p) => ReleaseKeeps(g, s.prio, c, lock, i, p);
      case SetBase(c, base) => SetPriorityKeeps(g, s.prio, c, base);
    }
  }

  lemma TakeExact(s: State, c: Tid, lock: Lid)
    requires Good(s) && FindsFree(s.graph, c, lock)
    ensures Good(State(Acquired(s.graph, c, lock), s.prio)) <==> Clean(s, Take(c, lock))
  {
    var g := s.graph;
    hide Settled;
    AcquireExact(g, s.prio, c, lock);
    if NoneStray(g, c, lock) {
      hide *;
      AcquiredConsistent(g, c, lock);
    } else {
      StrayInconsistent(g, c, lock);
    }
  }

  lemma StrayInconsistent(g: Graph, c: Tid, lock: Lid)
    requires FindsFree(g, c, lock) && !NoneStray(g, c, lock)
    ensures !Consistent(Acquired(g, c, lock))
  {
    var w :| w in g.base && w != c && g.blocked[w] == Some(lock) && w !in g.waiters[lock];
    var g' := Acquired(g, c, lock);
    assert g'.blocked[w] == Some(lock) && g'.holder[lock] == Some(c) && w !in g'.waiters[lock];
  }

  /** The state in which C, which was woken, counts as running. */
  function Awoken(s: State, c: Tid): State {
    s.(graph := s.graph.(blocked := s.graph.blocked[c := None]))
  }

  // Whole runs.

  /** Every step is possible in the state it meets, and meets its condition. */
  ghost predicate CleanRun(s: State, es: seq<Event>)
    requires Good(s)
    decreases |es|
  {
    es == [] ||
    (&& Possible(s, es[0]) && Clean(s, es[0])
     && (StepExact(s, es[0]); CleanRun(After(s, es[0]), es[1..])))
  }

  ghost function Final(s: State, es: seq<Event>): (s': State)
    requires Good(s) && CleanRun(s, es)
    ensures Good(s')
    decreases |es|
  {
    if es == [] then s
    else
      StepExact(s, es[0]);
      Final(After(s, es[0]), es[1..])
  }

  /** After any run of clean steps no blocked thread outranks the holder of the lock it waits for, nor any thread
      further down the chain; and if there is no deadlock, each priority is the base priority of some thread that
      waits for it, at any distance. */
  lemma RunDonates(s: State, es: seq<Event>, t: Tid, k: nat, rank: map<Tid, nat>) returns (w: Tid, n: nat)
    requires Good(s) && CleanRun(s, es)
    requires var g := Final(s, es).graph; t in g.base && Ranked(g, rank)
    ensures var s' := Final(s, es);
            && (Down(s'.graph, t, k).Some? ==> s'.prio[t] <= s'.prio[Down(s'.graph, t, k).value])
            && w in s'.graph.base && Down(s'.graph, w, n) == Some(t) && s'.graph.base[w] == s'.prio[t]
  {
    var s' := Final(s, es);
    hide CleanRun, Final, Consistent, Closed, Settled, Ranked;
    ConsistentClosed(s'.graph);
    if Down(s'.graph, t, k).Some? {
      NoInversion(s'.graph, s'.prio, t, k);
    }
    w, n := DonatedBy(s'.graph, s'.prio, rank, t);
  }

  // Where the conditions fail.

  function ChainBase(t: Tid): int { if t == 9 then 63 else 31 }
  function ChainLocks(t: Tid): seq<Lid> { if t == 9 then [] else [t] }
  function ChainBlocked(t: Tid): Option<Lid> { if t < 8 then Some(t + 1) else None }
  function ChainHolder(l: Lid): Option<Tid> { Some(l) }
  function ChainWaiters(l: Lid): seq<Tid> { if l == 0 then [] else [l - 1] }

  /** Nine threads in a chain: thread I holds lock I and waits for lock I+1, except the last; thread 9 holds nothing. */
  function Chain(): Graph {
    Graph(map t | 0 <= t <= 9 :: ChainBase(t), map t | 0 <= t <= 9 :: ChainLocks(t),
          map t | 0 <= t <= 9 :: ChainBlocked(t), map l | 0 <= l <= 8 :: ChainHolder(l),
          map l | 0 <= l <= 8 :: ChainWaiters(l))
  }

  lemma ChainMembers(g: Graph)
    requires g == Chain()
    ensures g.locks.Keys == g.base.Keys && g.blocked.Keys == g.base.Keys && g.waiters.Keys == g.holder.Keys
    ensures forall t :: t in g.base <==> 0 <= t <= 9
    ensures forall l :: l in g.holder <==> 0 <= l <= 8
    ensures forall t | t in g.base :: g.base[t] == ChainBase(t) && g.blocked[t] == ChainBlocked(t)
    ensures forall l | l in g.holder :: g.holder[l] == Some(l)
  {
  }

  lemma ChainLists(g: Graph)
    requires g == Chain()
    ensures forall t | t in g.locks :: |g.locks[t]| <= 1 && forall l :: l in g.locks[t] <==> l == t < 9
    ensures forall l | l in g.waiters :: |g.waiters[l]| <= 1 && forall w :: w in g.waiters[l] <==> w == l - 1 >= 0
  {
  }

  lemma ChainClosed(g: Graph)
    requires g == Chain()
    ensures Closed(g)
  {
    hide Chain;
    ChainMembers(g);
    ChainLists(g);
  }

  lemma ChainHeld(g: Graph)
    requires g == Chain() && Closed(g)
    ensures HeldOnce(g)
  {
    hide Chain, ChainBase, ChainBlocked, Closed;
    ChainMembers(g);
    ChainLists(g);
  }

  lemma ChainWaits(g: Graph)
    requires g == Chain() && Closed(g)
    ensures WaitsOnce(g)
  {
    hide Chain, ChainBase, Closed;
    ChainMembers(g);
    ChainLists(g);
  }

  lemma ChainConsistent(g: Graph)
    requires g == Chain()
    ensures Contends(g, 9, 0) && Consistent(g)
  {
    hide Chain, ChainBase, Closed, HeldOnce, WaitsOnce;
    ChainMembers(g);
    ChainClosed(g);
    ChainHeld(g);
    ChainWaits(g);
  }

  lemma ChainComputed(g: Graph, t: Tid)
    requires g == Chain() && Closed(g) && t in g.base
    ensures g.base[t] == Computed(g, g.base, t)
  {
    hide Chain, Computed;
    ChainMembers(g);
    ChainLists(g);
    hide Closed;
    ComputedIs(g, g.base, t);
  }

  lemma ChainGood(g: Graph)
    requires g == Chain()
    ensures Good(State(g, g.base))
  {
    hide Chain, Closed, Consistent, Computed, Contends;
    ChainConsistent(g);
    ChainClosed(g);
    forall t | t in g.base
      ensures g.base[t] == Computed(g, g.base, t)
    {
      ChainComputed(g, t);
    }
  }

  lemma ChainNext(t: Tid)
    requires 0 <= t <= 8 && Closed(Joined(Chain(), 9, 0))
    ensures t in Joined(Chain(), 9, 0).base
    ensures Next(Joined(Chain(), 9, 0), t) == if t < 8 then Some(t + 1) else None
  {
    hide Closed;
  }

  lemma {:induction false} ChainCut(d: nat)
    requires d <= 8 && Closed(Joined(Chain(), 9, 0))
    ensures d in Joined(Chain(), 9, 0).base
    ensures var g := Joined(Chain(), 9, 0);
            Beyond(g, d, d) == Some(8) && forall x | x in Visited(g, d, d) :: x < 8
    decreases 8 - d
  {
    hide Closed, Next, Chain, Joined;
    ChainNext(d);
    if d < 8 {
      ChainCut(d + 1);
    }
  }

  /** The ninth holder is not raised. */
  lemma LongChainFails()
    ensures var s := State(Chain(), Chain().base);
            && Good(s) && Possible(s, Ask(9, 0)) && !Good(After(s, Ask(9, 0)))
  {
    var g := Chain();
    hide *;
    ChainConsistent(g);
    ChainGood(g);
    JoinedFacts(g, 9, 0);
    ChainCut(0);
    ChainOut(g);
    StepExact(State(g, g.base), Ask(9, 0));
  }

  lemma ChainOut(g: Graph)
    requires g == Chain() && Good(State(g, g.base)) && Contends(g, 9, 0)
    requires Closed(Joined(g, 9, 0)) && 0 in Joined(g, 9, 0).base
    requires Beyond(Joined(g, 9, 0), 0, 0) == Some(8)
    requires forall x | x in Visited(Joined(g, 9, 0), 0, 0) :: x < 8
    ensures Possible(State(g, g.base), Ask(9, 0)) && !Clean(State(g, g.base), Ask(9, 0))
  {
    hide Chain, Closed, HeldOnce, WaitsOnce, Settled, Visited, Beyond;
    ChainMembers(g);
  }

  /** A lock with a waiter of priority 40, just released: thread 2 was woken, and thread 3 has not been. */
  function Freed(): Graph {
    Graph(map[1 := 31, 2 := 40, 3 := 35], map[1 := [], 2 := [], 3 := []],
          map[1 := None, 2 := Some(0), 3 := Some(0)], map[0 := None], map[0 := [3]])
  }

  /** Thread 1, which takes the lock before the woken thread, is left below a thread that waits for it. */
  lemma OvertakingFails()
    ensures var s := State(Freed(), Freed().base);
            && Good(s) && Possible(s, Take(1, 0)) && !Good(After(s, Take(1, 0)))
            && Possible(s, Take(2, 0)) && Good(After(s, Take(2, 0)))
  {
    hide Closed, HeldOnce, WaitsOnce, Settled, Computed;
    var g := Freed();
    var s := State(g, g.base);
    FreedGood();
    StepExact(s, Take(1, 0));
    StepExact(s, Take(2, 0));
  }

  lemma FreedConsistent()
    ensures Consistent(Freed())
  {
    var g := Freed();
    assert Closed(g);
    assert HeldOnce(g);
    assert WaitsOnce(g);
  }

  lemma FreedGood()
    ensures Good(State(Freed(), Freed().base)) && FindsFree(Freed(), 1, 0) && FindsFree(Freed(), 2, 0)
  {
    hide HeldOnce, WaitsOnce, Computed;
    FreedConsistent();
    var g, prio := Freed(), Freed().base;
    forall t | t in g.base
      ensures prio[t] == Computed(g, prio, t)
    {
      ComputedIs(g, prio, t);
    }
  }

  lemma MaxOverLocksStep(prio: map<Tid, int>, waiters: map<Lid, seq<Tid>>, ls: seq<Lid>, i: nat, m: int)
    requires i < |ls| && forall l | l in ls :: l in waiters
    requires forall l, w | l in ls && w in waiters[l] :: w in prio
    ensures ls[i] in waiters && forall w | w in waiters[ls[i]] :: w in prio
    ensures MaxOverLocks(prio, waiters, ls[i..], m)
            == MaxOverLocks(prio, waiters, ls[i + 1..], MaxOver(prio, waiters[ls[i]], m))
  {
    var l := ls[i];
    assert l in ls;
    assert ls[i..][0] == l && ls[i..][1..] == ls[i + 1..];
  }

  lemma MaxOverStep(prio: map<Tid, int>, ws: seq<Tid>, j: nat, m: int)
    requires j < |ws| && forall w | w in ws :: w in prio
    ensures ws[j] in prio
    ensures MaxOver(prio, ws[j..], m) == MaxOver(prio, ws[j + 1..], if m > prio[ws[j]] then m else prio[ws[j]])
  {
    var w := ws[j];
    assert w in ws;
    assert ws[j..][0] == w && ws[j..][1..] == ws[j + 1..];
  }

  /** The fields of all threads and locks. */
  class Kernel {
    var base: map<Tid, int>
    var locks: map<Tid, seq<Lid>>
    var blocked: map<Tid, Option<Lid>>
    var holder: map<Lid, Option<Tid>>
    var waiters: map<Lid, seq<Tid>>
    var prio: map<Tid, int>

    ghost function Shape(): Graph
      reads this`base, this`locks, this`blocked, this`holder, this`waiters
    {
      Graph(base, locks, blocked, holder, waiters)
    }

    ghost function Now(): State
      reads this
    {
      State(Shape(), prio)
    }

    /** A kernel with the given idle threads and free locks. */
    constructor (base: map<Tid, int>, all: set<Lid>)
      ensures Good(Now()) && Shape().base == base && Shape().holder.Keys == all
    {
      this.base, prio := base, base;
      locks := map t | t in base :: [];
      blocked := map t | t in base :: None;
      holder := map l | l in all :: None;
      waiters := map l | l in all :: [];
      new;
      assert Closed(Shape());
    }

    /** The largest of MAX and the priorities of the threads waiting for LOCK. */
    method MaxWaiting(lock: Lid, max: int) returns (r: int)
      requires lock in waiters && forall w | w in waiters[lock] :: w in prio
      ensures r == MaxOver(prio, waiters[lock], max)
    {
      var ws := waiters[lock];
      r := max;
      assert ws[0..] == ws;
      for j := 0 to |ws|
        invariant MaxOver(prio, ws[j..], r) == MaxOver(prio, ws, max)
      {
        MaxOverStep(prio, ws, j, r);
        if !(r > prio[ws[j]]) {
          r := prio[ws[j]];
        }
      }
    }

    /** What T's priority should be. */
    method Donated(t: Tid) returns (max: int)
      requires Closed(Shape()) && prio.Keys == base.Keys && t in base
      ensures max == Computed(Shape(), prio, t)
    {
      max := base[t];
      var ls := locks[t];
      assert ls[0..] == ls;
      hide MaxOver;
      for i := 0 to |ls|
        invariant MaxOverLocks(prio, waiters, ls[i..], max) == Computed(Shape(), prio, t)
      {
        MaxOverLocksStep(prio, waiters, ls, i, max);
        max := MaxWaiting(ls[i], max);
      }
    }

    method RecalculatePriority(t: Tid, depth: nat)
      requires Closed(Shape()) && prio.Keys == base.Keys && t in base
      modifies this`prio
      ensures prio == Recalculated(Shape(), old(prio), t, depth)
      decreases DONATION_DEPTH - depth
    {
      hide Computed, Recalculated;
      RecalculatedOnce(Shape(), prio, t, depth);
      if depth >= DONATION_DEPTH {
        return;
      }
      var max := Donated(t);
      prio := prio[t := max];
      if blocked[t].Some? && holder[blocked[t].value].Some? {
        RecalculatePriority(holder[blocked[t].value].value, depth + 1);
      }
    }

    /** The running thread C asks for LOCK.  WAITS tells whether it has to sleep.  All priorities are right afterwards
        if and only if the condition held that a caller can check. */
    method LockAcquire(c: Tid, lock: Lid) returns (waits: bool)
      requires Good(Now()) && c in base && blocked[c] == None && lock in holder && holder[lock] != Some(c)
      modifies this
      ensures waits <==> old(holder)[lock].Some?
      ensures var e := if waits then Ask(c, lock) else Take(c, lock);
              && Possible(old(Now()), e) && Now() == After(old(Now()), e)
              && (Good(Now()) <==> old(Clean(Now(), e)))
      ensures base == old(base)
      ensures waits ==>
                && waiters == old(waiters)[lock := old(waiters)[lock] + [c]] && blocked == old(blocked)[c := Some(lock)]
                && holder == old(holder) && locks == old(locks)
      ensures !waits ==>
                && holder == old(holder)[lock := Some(c)] && locks == old(locks)[c := old(locks)[c] + [lock]]
                && blocked == old(blocked)[c := None] && waiters == old(waiters) && prio == old(prio)
    {
      hide Computed, Recalculated, Settled, Closed, HeldOnce, WaitsOnce, Clean;
      waits := holder[lock].Some?;
      AskedLock(Now(), c, lock);
      StepExact(Now(), if waits then Ask(c, lock) else Take(c, lock));
      if waits {
        JoinedFacts(Shape(), c, lock);
        waiters := waiters[lock := waiters[lock] + [c]];
        blocked := blocked[c := Some(lock)];
        RecalculatePriority(holder[lock].value, 0);
      } else {
        Got(c, lock);
      }
    }

    /** C, woken, goes on where it went to sleep.  If it finds the lock free it takes it, and all priorities are right
        afterwards if and only if no thread that still waits for the lock outranks C and no other woken thread is on
        its way to it.  If another thread took the lock meanwhile, C goes back to sleep without donating, and all
        priorities are right if and only if C does not outrank that thread. */
    method Resume(c: Tid, lock: Lid) returns (got: bool)
      requires c in base && lock in holder && c in blocked && Good(Awoken(Now(), c))
      requires holder[lock] != Some(c) && blocked[c] == Some(lock)
      modifies this
      ensures got <==> old(holder)[lock].None?
      ensures got ==>
                && Possible(Awoken(old(Now()), c), Take(c, lock))
                && Now() == After(Awoken(old(Now()), c), Take(c, lock))
                && blocked[c] == None && holder[lock] == Some(c)
                && (Good(Now()) <==>
                      old(&& NoneStray(Awoken(Now(), c).graph, c, lock)
                          && forall w | w in waiters[lock] :: prio[w] <= prio[c]))
      ensures !got ==>
                && Now() == State(Joined(old(Shape()), c, lock), old(prio))
                && (Good(Now()) <==> prio[c] <= prio[old(holder)[lock].value])
    {
      hide Computed, Settled, HeldOnce, WaitsOnce;
      ghost var s := Awoken(Now(), c);
      AskedLock(s, c, lock);
      got := holder[lock].None?;
      if got {
        StepExact(s, Take(c, lock));
        Got(c, lock);
      } else {
        JoinExact(s.graph, prio, c, lock);
        waiters := waiters[lock := waiters[lock] + [c]];
        Rejoined(blocked, c, lock);
      }
    }

    method Got(c: Tid, lock: Lid)
      requires c in locks
      modifies this
      ensures Now() == State(Acquired(old(Shape()), c, lock), old(prio))
      ensures holder == old(holder)[lock := Some(c)] && locks == old(locks)[c := old(locks)[c] + [lock]]
      ensures blocked == old(blocked)[c := None] && waiters == old(waiters) && prio == old(prio) && base == old(base)
    {
      holder := holder[lock := Some(c)];
      blocked := blocked[c := None];
      locks := locks[c := locks[c] + [lock]];
    }

    /** The first of the threads waiting for LOCK with the highest priority. */
    method MaxWaiter(lock: Lid) returns (p: nat)
      requires lock in waiters && waiters[lock] != [] && forall w | w in waiters[lock] :: w in prio
      ensures FirstHighest(prio, waiters[lock], p)
    {
      var ws := waiters[lock];
      Known(prio, ws);
      p := 0;
      for j := 1 to |ws|
        invariant p < j
        invariant forall k | 0 <= k < j :: prio[ws[k]] <= prio[ws[p]]
        invariant forall k | 0 <= k < p :: prio[ws[k]] < prio[ws[p]]
      {
        if prio[ws[p]] < prio[ws[j]] {
          p := j;
        }
      }
    }

    method SetPriority(c: Tid, newBase: int)
      requires Closed(Shape()) && prio.Keys == base.Keys && c in base
      modifies this`base, this`prio
      ensures base == old(base)[c := newBase]
      ensures Closed(Shape()) && prio == Recalculated(Shape(), old(prio), c, 0)
    {
      base := base[c := newBase];
      assert base.Keys == old(base).Keys;
      RecalculatePriority(c, 0);
    }

    /** The running thread C changes its base priority.  Its priority becomes the largest of that and those of the
        threads waiting for its locks, and no other thread's changes. */
    method ThreadSetPriority(c: Tid, newBase: int)
      requires Good(Now()) && c in base && blocked[c] == None
      modifies this
      ensures Good(Now()) && Now() == After(old(Now()), SetBase(c, newBase))
      ensures base == old(base)[c := newBase]
      ensures locks == old(locks) && blocked == old(blocked) && holder == old(holder) && waiters == old(waiters)
      ensures Closed(Shape()) && prio.Keys == base.Keys && Leads(Shape(), prio, c)
      ensures forall t | t in prio && t != c :: t in old(prio) && prio[t] == old(prio)[t]
    {
      hide Settled, Recalculated, HeldOnce, WaitsOnce, Computed;
      StepExact(Now(), SetBase(c, newBase));
      SetPriority(c, newBase);
      OnlyOwn(Shape(), old(prio), c);
      GoodLeads(Now(), c);
    }

    /** Frees LOCK, takes the thread to wake off its list and the lock off C's. */
    method TakeOff(c: Tid, lock: Lid) returns (woken: Option<Tid>, ghost i: nat, ghost p: nat)
      requires c in locks && lock in locks[c] && lock in waiters && forall w | w in waiters[lock] :: w in prio
      modifies this`holder, this`locks, this`waiters
      ensures i < |old(locks)[c]| && old(locks)[c][i] == lock
      ensures old(waiters)[lock] != [] ==> FirstHighest(prio, old(waiters)[lock], p)
      ensures woken == if old(waiters)[lock] == [] then None else Some(old(waiters)[lock][p])
      ensures Shape() == Released(old(Shape()), c, lock, i, p)
      ensures holder == old(holder)[lock := None]
      ensures locks == old(locks)[c := old(locks)[c][..i] + old(locks)[c][i + 1..]]
      ensures var ws := old(waiters)[lock];
              waiters == if ws == [] then old(waiters) else old(waiters)[lock := ws[..p] + ws[p + 1..]]
    {
      var at :| 0 <= at < |locks[c]| && locks[c][at] == lock;
      i, p := at, 0;
      woken := None;
      if waiters[lock] != [] {
        var max := MaxWaiter(lock);
        p := max;
        woken := Some(waiters[lock][max]);
        waiters := waiters[lock := RemoveAt(waiters[lock], max)];
      }
      holder := holder[lock := None];
      locks := locks[c := RemoveAt(locks[c], at)];
    }

    /** The running thread C lets go of LOCK.  WOKEN is the thread that may now take it. */
    method LockRelease(c: Tid, lock: Lid) returns (woken: Option<Tid>, ghost i: nat, ghost p: nat)
      requires Good(Now()) && c in base && blocked[c] == None && lock in holder && holder[lock] == Some(c)
      modifies this
      ensures Possible(old(Now()), Release(c, lock, i, p)) && Now() == After(old(Now()), Release(c, lock, i, p))
      ensures Good(Now())
      ensures woken == if old(waiters)[lock] == [] then None else Some(old(waiters)[lock][p])
      ensures old(waiters)[lock] != [] ==> FirstHighest(old(prio), old(waiters)[lock], p)
      ensures holder == old(holder)[lock := None] && base == old(base) && blocked == old(blocked)
      ensures i < |old(locks)[c]| && old(locks)[c][i] == lock
      ensures locks == old(locks)[c := old(locks)[c][..i] + old(locks)[c][i + 1..]]
      ensures var ws := old(waiters)[lock];
              waiters == if ws == [] then old(waiters) else old(waiters)[lock := ws[..p] + ws[p + 1..]]
      ensures forall t | t in prio && t != c :: t in old(prio) && prio[t] == old(prio)[t]
      ensures c in prio && c in old(prio) && base[c] <= prio[c] <= old(prio)[c]
    {
      hide Closed, HeldOnce, WaitsOnce, Settled, Recalculated, FirstHighest, Releases, Computed, After, Released;
      ghost var s := Now();
      ReleaseReady(s, c, lock);
      woken, i, p := TakeOff(c, lock);
      ReleasePossible(s, c, lock, i, p);
      Rewritten(base, c);
      SetPriority(c, base[c]);
      ReleaseEffect(s, c, lock, i, p);
    }
  }

  /** T's priority is the largest of its base priority and those of the threads waiting for its locks. */
  ghost predicate Leads(g: Graph, prio: map<Tid, int>, t: Tid)
    requires Closed(g) && prio.Keys == g.base.Keys && t in g.base
  {
    && g.base[t] <= prio[t]
    && (forall l, w | WaitsFor(g, w, l, t) :: prio[w] <= prio[t])
    && (prio[t] == g.base[t] || exists l, w :: WaitsFor(g, w, l, t) && prio[w] == prio[t])
  }

  lemma GoodLeads(s: State, t: Tid)
    requires Good(s) && t in s.graph.base
    ensures Leads(s.graph, s.prio, t)
  {
    hide Computed, HeldOnce, WaitsOnce;
    ComputedIs(s.graph, s.prio, t);
  }

  /** The recalculation for a running thread changes its own priority only. */
  lemma OnlyOwn(g: Graph, prio: map<Tid, int>, c: Tid)
    requires Closed(g) && prio.Keys == g.base.Keys && c in g.base && g.blocked[c] == None
    ensures Recalculated(g, prio, c, 0) == prio[c := Computed(g, prio, c)]
  {
    hide Computed;
  }

  lemma ReleaseEffect(s: State, c: Tid, lock: Lid, i: nat, p: nat)
    requires Good(s) && Releases(s.graph, c, lock, i, p)
    ensures var g' := Released(s.graph, c, lock, i, p);
            && Closed(g') && s.prio.Keys == g'.base.Keys && c in s.prio && c in g'.base && c in s.graph.base
            && var prio' := Recalculated(g', s.prio, c, 0);
            && (forall t | t in prio' && t != c :: prio'[t] == s.prio[t])
            && s.graph.base[c] <= prio'[c] <= s.prio[c]
  {
    hide HeldOnce, WaitsOnce, Computed, Settled, Recalculated;
    ReleaseChangesOne(s.graph, s.prio, c, lock, i, p);
  }

  lemma Rejoined(blocked: map<Tid, Option<Lid>>, c: Tid, lock: Lid)
    requires c in blocked && blocked[c] == Some(lock)
    ensures blocked[c := Some(lock)] == blocked && blocked[c := None][c := Some(lock)] == blocked
  {
  }

  lemma Rewritten(m: map<Tid, int>, c: Tid)
    requires c in m
    ensures m[c := m[c]] == m
  {
  }

  lemma AskedLock(s: State, c: Tid, lock: Lid)
    requires Good(s) && c in s.graph.base && s.graph.blocked[c] == None && lock in s.graph.holder
    requires s.graph.holder[lock] != Some(c)
    ensures c in s.graph.locks && lock in s.graph.waiters
    ensures if s.graph.holder[lock].Some? then Contends(s.graph, c, lock) else FindsFree(s.graph, c, lock)
  {
    hide Settled;
    RunningNotWaiting(s.graph, c);
  }

  lemma ReleaseReady(s: State, c: Tid, lock: Lid)
    requires Good(s) && c in s.graph.base && lock in s.graph.holder && s.graph.holder[lock] == Some(c)
    ensures c in s.graph.locks && lock in s.graph.locks[c] && lock in s.graph.waiters && Closed(s.graph)
    ensures forall w | w in s.graph.waiters[lock] :: w in s.prio
  {
  }

  lemma ReleasePossible(s: State, c: Tid, lock: Lid, i: nat, p: nat)
    requires Good(s) && c in s.graph.base && c in s.graph.blocked && s.graph.blocked[c] == None
    requires c in s.graph.locks && i < |s.graph.locks[c]| && s.graph.locks[c][i] == lock
    requires lock in s.graph.waiters && (s.graph.waiters[lock] != [] ==> FirstHighest(s.prio, s.graph.waiters[lock], p))
    ensures Possible(s, Release(c, lock, i, p)) && Good(After(s, Release(c, lock, i, p)))
    ensures var g' := Released(s.graph, c, lock, i, p);
            && Closed(g') && g'.base == s.graph.base && s.prio.Keys == s.graph.base.Keys
            && After(s, Release(c, lock, i, p)) == State(g', Recalculated(g', s.prio, c, 0))
  {
    hide Closed, HeldOnce, WaitsOnce, Settled, Recalculated;
    assert Releases(s.graph, c, lock, i, p);
    ReleasedClosed(s.graph, c, lock, i, p);
    StepExact(s, Release(c, lock, i, p));
  }

  lemma Known(prio: map<Tid, int>, ws: seq<Tid>)
    requires forall w | w in ws :: w in prio
    ensures forall j | 0 <= j < |ws| :: ws[j] in prio
  {
    forall j | 0 <= j < |ws|
      ensures ws[j] in prio
    {
      var w := ws[j];
      assert w in ws;
    }
  }
}
