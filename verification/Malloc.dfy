/** The block allocator on top of the page allocator: addresses, arenas and free lists. */
module Malloc {
  import opened Common
  import opened Palloc
  import opened CDivision
  import Bitmap

  const ARENA_SIZE := 12
  const DESC_CNT := 7

  /** The header at the start of an arena's first page. */
  datatype Arena = Small(desc: nat, freeCnt: nat) | Big(pages: nat)

  /** The free lists, one per descriptor; the arenas, by page; and the live blocks with the sizes asked for. */
  datatype Heap = Heap(free: seq<seq<int>>, arenas: map<int, Arena>, live: map<int, nat>)

  // Addresses.

  function BlockSize(d: nat): nat
    requires d < DESC_CNT
  {
    [16, 32, 64, 128, 256, 512, 1024][d]
  }

  function PerArena(d: nat): nat
    requires d < DESC_CNT
  {
    [255, 127, 63, 31, 15, 7, 3][d]
  }

  function Block(a: int, d: nat, i: int): int
    requires d < DESC_CNT
  {
    a * PGSIZE + ARENA_SIZE + i * BlockSize(d)
  }

  function PageOf(b: int): int {
    b / PGSIZE
  }

  /** The blocks of an arena are in its page, after the header. */
  lemma BlockInPage(a: int, d: nat, i: int)
    requires d < DESC_CNT && 0 <= i < PerArena(d)
    ensures PageOf(Block(a, d, i)) == a
    ensures a * PGSIZE + ARENA_SIZE <= Block(a, d, i) && Block(a, d, i) + BlockSize(d) <= (a + 1) * PGSIZE
  {
    var s, n := BlockSize(d), PerArena(d);
    assert n * s <= PGSIZE - ARENA_SIZE;
    MulMono(s, i + 1, n);
    assert s * (i + 1) == i * s + s && s * n == n * s;
    MulMono(s, 0, i);
    DivUnique(Block(a, d, i), PGSIZE, a, ARENA_SIZE + i * s);
  }

  /** Different blocks of an arena do not overlap. */
  lemma BlocksApart(a: int, d: nat, i: int, j: int)
    requires d < DESC_CNT && i < j
    ensures Block(a, d, i) + BlockSize(d) <= Block(a, d, j)
  {
    MulMono(BlockSize(d), i + 1, j);
  }

  lemma BlockInjective(a: int, d: nat, i: int, j: int)
    requires d < DESC_CNT && Block(a, d, i) == Block(a, d, j)
    ensures i == j
  {
    if i < j {
      BlocksApart(a, d, i, j);
    } else if j < i {
      BlocksApart(a, d, j, i);
    }
  }

  /** B is one of the places for a block of descriptor D in its page. */
  ghost predicate IsBlock(b: int, d: nat)
    requires d < DESC_CNT
  {
    exists i :: 0 <= i < PerArena(d) && b == Block(PageOf(b), d, i)
  }

  // What is on the free lists.

  ghost predicate OfArena(h: Heap, a: int, d: nat) {
    a in h.arenas && h.arenas[a].Small? && h.arenas[a].desc == d
  }

  /** The free list of D has exactly the blocks of its arenas that are not live, each once. */
  ghost predicate FreeOk(h: Heap, d: nat)
    requires d < DESC_CNT && |h.free| == DESC_CNT
  {
    && Distinct(h.free[d])
    && forall b :: b in h.free[d] <==> OfArena(h, PageOf(b), d) && IsBlock(b, d) && b !in h.live
  }

  /** The live block B is in an arena, and large enough; a request too near to 2^32 is the exception. */
  ghost predicate LiveOk(h: Heap, b: int)
    requires b in h.live
  {
    var a := PageOf(b);
    a in h.arenas &&
    match h.arenas[a]
    case Small(d, _) => d < DESC_CNT && IsBlock(b, d) && h.live[b] <= BlockSize(d)
    case Big(n) =>
      && b == a * PGSIZE + ARENA_SIZE
      && (h.live[b] + ARENA_SIZE <= n * PGSIZE <==> h.live[b] <= TWO32 - ARENA_SIZE)
  }

  /** How many of the first N blocks of an arena are not live. */
  ghost function Dead(live: map<int, nat>, a: int, d: nat, n: nat): (c: nat)
    requires d < DESC_CNT
  {
    if n == 0 then 0 else Dead(live, a, d, n - 1) + if Block(a, d, n - 1) in live then 0 else 1
  }

  /** The arena at page A is a live group of pages, and its free count is right. */
  ghost predicate ArenaOk(h: Heap, groups: Groups, a: int)
    requires a in h.arenas
  {
    a in groups && a > 0 &&
    match h.arenas[a]
    case Small(d, f) => d < DESC_CNT && groups[a] == 1 && f == Dead(h.live, a, d, PerArena(d))
    case Big(n) => n > 0 && groups[a] == n && a * PGSIZE + ARENA_SIZE in h.live
  }

  ghost predicate Core(h: Heap, groups: Groups) {
    && |h.free| == DESC_CNT
    && (forall d | 0 <= d < DESC_CNT :: FreeOk(h, d))
    && (forall b | b in h.live :: LiveOk(h, b))
    && (forall a | a in h.arenas :: ArenaOk(h, groups, a))
  }

  /** Every arena has a live block. */
  ghost predicate NoneIdle(h: Heap) {
    forall a | a in h.arenas && h.arenas[a].Small? ::
        h.arenas[a].desc < DESC_CNT && h.arenas[a].freeCnt < PerArena(h.arenas[a].desc)
  }

  ghost predicate Ok(h: Heap, groups: Groups) {
    Core(h, groups) && NoneIdle(h)
  }

  // Counting.

  lemma {:induction false} DeadAll(live: map<int, nat>, a: int, d: nat, n: nat)
    requires d < DESC_CNT
    ensures Dead(live, a, d, n) <= n
    ensures Dead(live, a, d, n) == n <==> forall i | 0 <= i < n :: Block(a, d, i) !in live
  {
    if n > 0 {
      DeadAll(live, a, d, n - 1);
      if Dead(live, a, d, n) == n {
        assert Block(a, d, n - 1) !in live;
      }
    }
  }

  lemma {:induction false} DeadSame(live: map<int, nat>, live': map<int, nat>, a: int, d: nat, n: nat)
    requires d < DESC_CNT
    requires forall i | 0 <= i < n :: Block(a, d, i) in live <==> Block(a, d, i) in live'
    ensures Dead(live, a, d, n) == Dead(live', a, d, n)
  {
    if n > 0 {
      DeadSame(live, live', a, d, n - 1);
    }
  }

  lemma {:induction false} DeadOne(live: map<int, nat>, live': map<int, nat>, a: int, d: nat, i: nat, n: nat)
    requires d < DESC_CNT && i < n && Block(a, d, i) !in live && Block(a, d, i) in live'
    requires forall x | x != Block(a, d, i) :: x in live <==> x in live'
    ensures Dead(live, a, d, n) == Dead(live', a, d, n) + 1
  {
    hide Block;
    if i == n - 1 {
      forall j | 0 <= j < n - 1
        ensures Block(a, d, j) in live <==> Block(a, d, j) in live'
      {
        OtherBlock(a, d, i, j);
      }
      DeadSame(live, live', a, d, n - 1);
    } else {
      OtherBlock(a, d, i, n - 1);
      DeadOne(live, live', a, d, i, n - 1);
    }
  }

  lemma OtherBlock(a: int, d: nat, i: int, j: int)
    requires d < DESC_CNT && i != j
    ensures Block(a, d, i) != Block(a, d, j)
  {
    hide Block;
    if Block(a, d, i) == Block(a, d, j) {
      BlockInjective(a, d, i, j);
    }
  }

  /** A block elsewhere does not count. */
  lemma DeadElsewhere(live: map<int, nat>, live': map<int, nat>, b: int, a: int, d: nat)
    requires d < DESC_CNT && PageOf(b) != a
    requires forall x | x != b :: x in live <==> x in live'
    ensures Dead(live, a, d, PerArena(d)) == Dead(live', a, d, PerArena(d))
  {
    hide Block, PageOf, Dead;
    forall i | 0 <= i < PerArena(d)
      ensures Block(a, d, i) in live <==> Block(a, d, i) in live'
    {
      BlockInPage(a, d, i);
    }
    DeadSame(live, live', a, d, PerArena(d));
  }

  // Taking a block off a free list.

  function Popped(h: Heap, d: nat, size: nat): Heap
    requires d < |h.free| && h.free[d] != [] && PageOf(h.free[d][0]) in h.arenas
    requires h.arenas[PageOf(h.free[d][0])].Small? && h.arenas[PageOf(h.free[d][0])].freeCnt > 0
  {
    var b := h.free[d][0];
    Heap(h.free[d := h.free[d][1..]],
         h.arenas[PageOf(b) := h.arenas[PageOf(b)].(freeCnt := h.arenas[PageOf(b)].freeCnt - 1)],
         h.live[b := size])
  }

  lemma FirstIsBlock(h: Heap, groups: Groups, d: nat) returns (b: int, i: nat)
    requires Core(h, groups) && d < DESC_CNT && h.free[d] != []
    ensures b == h.free[d][0] && b !in h.live && OfArena(h, PageOf(b), d)
    ensures i < PerArena(d) && b == Block(PageOf(b), d, i) && IsBlock(b, d)
    ensures ArenaOk(h, groups, PageOf(b))
    ensures h.arenas[PageOf(b)].freeCnt > 0
  {
    hide Block, PageOf, Dead, LiveOk;
    b := h.free[d][0];
    assert b in h.free[d];
    assert FreeOk(h, d);
    i :| 0 <= i < PerArena(d) && b == Block(PageOf(b), d, i);
    var live' := h.live[b := 0];
    DeadOne(h.live, live', PageOf(b), d, i, PerArena(d));
  }

  lemma PoppedFree(h: Heap, groups: Groups, d: nat, size: nat, e: nat)
    requires Core(h, groups) && d < DESC_CNT && h.free[d] != [] && e < DESC_CNT
    requires OfArena(h, PageOf(h.free[d][0]), d) && h.arenas[PageOf(h.free[d][0])].freeCnt > 0
    ensures FreeOk(Popped(h, d, size), e)
  {
    hide Block, PageOf, Dead, LiveOk, IsBlock, ArenaOk;
    var h' := Popped(h, d, size);
    var b := h.free[d][0];
    assert FreeOk(h, e) && FreeOk(h, d);
    if e == d {
      assert h.free[d] == [b] + h'.free[d];
      assert forall x :: x in h.free[d] <==> x == b || x in h'.free[d];
      assert b !in h'.free[d];
    } else {
      assert h'.free[e] == h.free[e];
    }
  }

  lemma PoppedCore(h: Heap, groups: Groups, d: nat, size: nat)
    requires Core(h, groups) && d < DESC_CNT && h.free[d] != [] && size <= BlockSize(d)
    ensures OfArena(h, PageOf(h.free[d][0]), d) && h.arenas[PageOf(h.free[d][0])].freeCnt > 0
    ensures Core(Popped(h, d, size), groups)
    ensures var a := PageOf(h.free[d][0]); Popped(h, d, size).arenas[a].freeCnt < PerArena(d)
  {
    var b, i := FirstIsBlock(h, groups, d);
    var a := PageOf(b);
    var h' := Popped(h, d, size);
    hide Block, PageOf, Dead, IsBlock, FreeOk;
    DeadAll(h.live, a, d, PerArena(d));
    DeadOne(h.live, h'.live, a, d, i, PerArena(d));
    forall e | 0 <= e < DESC_CNT
      ensures FreeOk(h', e)
    {
      PoppedFree(h, groups, d, size, e);
    }
    forall x | x in h'.live
      ensures LiveOk(h', x)
    {
      assert x != b ==> LiveOk(h, x);
    }
    forall c | c in h'.arenas
      ensures ArenaOk(h', groups, c)
    {
      assert ArenaOk(h, groups, c);
      if c != a && h.arenas[c].Small? {
        DeadElsewhere(h.live, h'.live, b, c, h.arenas[c].desc);
      }
    }
  }

  // A new arena.

  function Blocks(a: int, d: nat, n: nat): (s: seq<int>)
    requires d < DESC_CNT
    ensures |s| == n && forall i | 0 <= i < n :: s[i] == Block(a, d, i)
  {
    seq(n, i => Block(a, d, i))
  }

  function Opened(h: Heap, d: nat, a: int): Heap
    requires d < DESC_CNT && |h.free| == DESC_CNT
  {
    h.(free := h.free[d := h.free[d] + Blocks(a, d, PerArena(d))], arenas := h.arenas[a := Small(d, PerArena(d))])
  }

  /** No block is live in a page without an arena. */
  lemma NothingLive(h: Heap, groups: Groups, a: int, d: nat)
    requires Core(h, groups) && a !in h.arenas && d < DESC_CNT
    ensures forall i | 0 <= i < PerArena(d) :: Block(a, d, i) !in h.live
    ensures forall b | b in h.live :: PageOf(b) != a
    ensures Dead(h.live, a, d, PerArena(d)) == PerArena(d)
  {
    hide Block, PageOf, Dead, IsBlock, FreeOk, ArenaOk;
    forall b | b in h.live
      ensures PageOf(b) != a
    {
      assert LiveOk(h, b);
    }
    forall i | 0 <= i < PerArena(d)
      ensures Block(a, d, i) !in h.live
    {
      BlockInPage(a, d, i);
    }
    DeadAll(h.live, a, d, PerArena(d));
  }

  lemma BlocksAre(a: int, d: nat)
    requires d < DESC_CNT
    ensures Distinct(Blocks(a, d, PerArena(d)))
    ensures forall b :: b in Blocks(a, d, PerArena(d)) <==> PageOf(b) == a && IsBlock(b, d)
  {
    hide Block, PageOf;
    var n, s := PerArena(d), Blocks(a, d, PerArena(d));
    forall i, j | 0 <= i < j < n
      ensures s[i] != s[j]
    {
      OtherBlock(a, d, i, j);
    }
    forall i | 0 <= i < n
      ensures PageOf(s[i]) == a && IsBlock(s[i], d)
    {
      BlockInPage(a, d, i);
    }
    forall b | PageOf(b) == a && IsBlock(b, d)
      ensures b in s
    {
      var i :| 0 <= i < n && b == Block(a, d, i);
      assert s[i] == b;
    }
  }

  lemma OpenedFree(h: Heap, groups: Groups, d: nat, a: int, e: nat)
    requires Core(h, groups) && d < DESC_CNT && h.free[d] == [] && a !in h.arenas && e < DESC_CNT
    ensures FreeOk(Opened(h, d, a), e)
  {
    hide Block, PageOf, IsBlock, Dead, LiveOk, ArenaOk;
    var h' := Opened(h, d, a);
    assert FreeOk(h, e) && FreeOk(h, d);
    if e == d {
      BlocksAre(a, d);
      NothingLive(h, groups, a, d);
      assert h'.free[d] == Blocks(a, d, PerArena(d));
    }
  }

  lemma OpenedCore(h: Heap, groups: Groups, groups': Groups, d: nat, a: int)
    requires Core(h, groups) && d < DESC_CNT && h.free[d] == [] && a > 0 && a !in groups && groups' == groups[a := 1]
    ensures Core(Opened(h, d, a), groups') && a !in h.arenas
  {
    hide Block, PageOf, IsBlock, Dead, FreeOk;
    var h' := Opened(h, d, a);
    forall e | 0 <= e < DESC_CNT
      ensures FreeOk(h', e)
    {
      OpenedFree(h, groups, d, a, e);
    }
    NothingLive(h, groups, a, d);
    forall c | c in h'.arenas
      ensures ArenaOk(h', groups', c)
    {
      assert c != a ==> ArenaOk(h, groups, c);
    }
    forall x | x in h'.live
      ensures LiveOk(h', x)
    {
      assert LiveOk(h, x);
    }
  }

  /** Blocks too large for any descriptor get pages of their own. */
  function OpenedBig(h: Heap, a: int, n: nat, size: nat): Heap {
    h.(arenas := h.arenas[a := Big(n)], live := h.live[a * PGSIZE + ARENA_SIZE := size])
  }

  lemma BigPage(a: int)
    ensures PageOf(a * PGSIZE + ARENA_SIZE) == a
  {
  }

  lemma OpenedBigCore(h: Heap, groups: Groups, groups': Groups, a: int, n: nat, size: nat)
    requires Core(h, groups) && n > 0 && a > 0 && a !in groups && groups' == groups[a := n]
    requires size + ARENA_SIZE <= n * PGSIZE <==> size <= TWO32 - ARENA_SIZE
    ensures Core(OpenedBig(h, a, n, size), groups') && a !in h.arenas && a * PGSIZE + ARENA_SIZE !in h.live
  {
    hide Block, PageOf, IsBlock, Dead;
    var h', b := OpenedBig(h, a, n, size), a * PGSIZE + ARENA_SIZE;
    BigPage(a);
    NothingLive(h, groups, a, 0);
    forall e | 0 <= e < DESC_CNT
      ensures FreeOk(h', e)
    {
      assert FreeOk(h, e);
    }
    forall c | c in h'.arenas
      ensures ArenaOk(h', groups', c)
    {
      if c != a {
        assert ArenaOk(h, groups, c);
        if h.arenas[c].Small? {
          DeadElsewhere(h.live, h'.live, b, c, h.arenas[c].desc);
        }
      }
    }
    forall x | x in h'.live
      ensures LiveOk(h', x)
    {
      assert x != b ==> LiveOk(h, x);
    }
  }

  // Giving a block back.

  function Pushed(h: Heap, b: int): Heap
    requires PageOf(b) in h.arenas && h.arenas[PageOf(b)].Small? && h.arenas[PageOf(b)].desc < |h.free|
  {
    var a := PageOf(b);
    var d := h.arenas[a].desc;
    Heap(h.free[d := [b] + h.free[d]], h.arenas[a := Small(d, h.arenas[a].freeCnt + 1)], h.live - {b})
  }

  lemma PushedFree(h: Heap, groups: Groups, b: int, d: nat, e: nat)
    requires Core(h, groups) && b in h.live && d < DESC_CNT && OfArena(h, PageOf(b), d) && e < DESC_CNT
    ensures FreeOk(Pushed(h, b), e)
  {
    hide Block, PageOf, IsBlock, Dead, ArenaOk;
    var h' := Pushed(h, b);
    assert LiveOk(h, b) && FreeOk(h, e) && FreeOk(h, d);
    if e == d {
      assert h'.free[d] == [b] + h.free[d];
      assert forall x :: x in h'.free[d] <==> x == b || x in h.free[d];
    }
  }

  lemma PushedCore(h: Heap, groups: Groups, b: int, d: nat)
    requires Core(h, groups) && b in h.live && d < DESC_CNT && OfArena(h, PageOf(b), d)
    ensures Core(Pushed(h, b), groups)
    ensures h.arenas[PageOf(b)].freeCnt < PerArena(d)
  {
    hide Block, PageOf, IsBlock, Dead, FreeOk;
    var h', a := Pushed(h, b), PageOf(b);
    forall e | 0 <= e < DESC_CNT
      ensures FreeOk(h', e)
    {
      PushedFree(h, groups, b, d, e);
    }
    LiveIndex(h, groups, b, d);
    forall c | c in h'.arenas
      ensures ArenaOk(h', groups, c)
    {
      assert ArenaOk(h, groups, c);
      if c != a && h.arenas[c].Small? {
        DeadElsewhere(h.live, h'.live, b, c, h.arenas[c].desc);
      } else if h.arenas[c].Big? {
        BigPage(c);
      }
    }
    forall x | x in h'.live
      ensures LiveOk(h', x)
    {
      assert LiveOk(h, x);
    }
  }

  lemma LiveIndex(h: Heap, groups: Groups, b: int, d: nat)
    requires Core(h, groups) && b in h.live && d < DESC_CNT && OfArena(h, PageOf(b), d)
    ensures Dead(h.live - {b}, PageOf(b), d, PerArena(d)) == Dead(h.live, PageOf(b), d, PerArena(d)) + 1
    ensures h.arenas[PageOf(b)].freeCnt < PerArena(d)
  {
    hide Block, PageOf, Dead, FreeOk;
    assert LiveOk(h, b) && ArenaOk(h, groups, PageOf(b));
    var i :| 0 <= i < PerArena(d) && b == Block(PageOf(b), d, i);
    DeadOne(h.live - {b}, h.live, PageOf(b), d, i, PerArena(d));
    DeadAll(h.live - {b}, PageOf(b), d, PerArena(d));
  }

  // Closing an arena.

  /** The elements of S that are not in XS. */
  function Minus(s: seq<int>, xs: set<int>): (r: seq<int>)
    ensures forall x :: x in r <==> x in s && x !in xs
  {
    if s == [] then []
    else
      var r := Minus(s[1..], xs);
      assert forall x :: x in s <==> x == s[0] || x in s[1..];
      if s[0] in xs then r else [s[0]] + r
  }

  lemma {:induction false} MinusDistinct(s: seq<int>, xs: set<int>)
    requires Distinct(s)
    ensures Distinct(Minus(s, xs))
  {
    if s != [] {
      MinusDistinct(s[1..], xs);
      assert s[0] !in s[1..];
    }
  }

  lemma {:induction false} MinusMinus(s: seq<int>, xs: set<int>, x: int)
    ensures Minus(Minus(s, xs), {x}) == Minus(s, xs + {x})
  {
    if s != [] {
      MinusMinus(s[1..], xs, x);
      var r := Minus(s[1..], xs);
      if s[0] !in xs {
        assert ([s[0]] + r)[1..] == r;
      }
    }
  }

  lemma {:induction false} MinusNone(s: seq<int>)
    ensures Minus(s, {}) == s
  {
    if s != [] {
      MinusNone(s[1..]);
    }
  }

  ghost function BlockSet(a: int, d: nat, n: nat): set<int>
    requires d < DESC_CNT
  {
    set i | 0 <= i < n :: Block(a, d, i)
  }

  ghost function Closed(h: Heap, a: int, d: nat): Heap
    requires d < DESC_CNT && |h.free| == DESC_CNT
  {
    h.(free := h.free[d := Minus(h.free[d], BlockSet(a, d, PerArena(d)))], arenas := h.arenas - {a})
  }

  lemma ClosedFree(h: Heap, groups: Groups, a: int, d: nat, e: nat)
    requires Core(h, groups) && d < DESC_CNT && OfArena(h, a, d) && e < DESC_CNT
    ensures FreeOk(Closed(h, a, d), e)
  {
    hide Block, PageOf, IsBlock, Dead, LiveOk, ArenaOk;
    var h' := Closed(h, a, d);
    assert FreeOk(h, e) && FreeOk(h, d);
    if e == d {
      MinusDistinct(h.free[d], BlockSet(a, d, PerArena(d)));
      BlocksAre(a, d);
      assert forall x :: x in BlockSet(a, d, PerArena(d)) <==> x in Blocks(a, d, PerArena(d));
    }
  }

  /** An arena all of whose blocks are free can go: its blocks leave the free list, and nothing live is in it. */
  lemma ClosedCore(h: Heap, groups: Groups, a: int, d: nat)
    requires Core(h, groups) && d < DESC_CNT && OfArena(h, a, d) && h.arenas[a].freeCnt == PerArena(d)
    ensures Core(Closed(h, a, d), groups - {a})
    ensures forall i | 0 <= i < PerArena(d) :: Block(a, d, i) in h.free[d]
  {
    hide Block, PageOf, Dead, FreeOk;
    var h' := Closed(h, a, d);
    assert ArenaOk(h, groups, a);
    DeadAll(h.live, a, d, PerArena(d));
    forall e | 0 <= e < DESC_CNT
      ensures FreeOk(h', e)
    {
      ClosedFree(h, groups, a, d, e);
    }
    forall c | c in h'.arenas
      ensures ArenaOk(h', groups - {a}, c)
    {
      assert ArenaOk(h, groups, c);
    }
    forall x | x in h'.live
      ensures LiveOk(h', x)
    {
      assert LiveOk(h, x);
    }
    AllListed(h, groups, a, d);
  }

  lemma AllListed(h: Heap, groups: Groups, a: int, d: nat)
    requires Core(h, groups) && d < DESC_CNT && OfArena(h, a, d)
    requires forall i | 0 <= i < PerArena(d) :: Block(a, d, i) !in h.live
    ensures forall i | 0 <= i < PerArena(d) :: Block(a, d, i) in h.free[d]
  {
    hide Block, PageOf, Dead, LiveOk, ArenaOk;
    assert FreeOk(h, d);
    forall i | 0 <= i < PerArena(d)
      ensures Block(a, d, i) in h.free[d]
    {
      BlockInPage(a, d, i);
      assert IsBlock(Block(a, d, i), d);
    }
  }

  ghost function ClosedBig(h: Heap, b: int): Heap {
    h.(arenas := h.arenas - {PageOf(b)}, live := h.live - {b})
  }

  lemma ClosedBigCore(h: Heap, groups: Groups, b: int)
    requires Core(h, groups) && b in h.live && PageOf(b) in h.arenas && h.arenas[PageOf(b)].Big?
    ensures Core(ClosedBig(h, b), groups - {PageOf(b)})
    ensures b == PageOf(b) * PGSIZE + ARENA_SIZE
    ensures PageOf(b) in groups && groups[PageOf(b)] == h.arenas[PageOf(b)].pages
  {
    hide Block, PageOf, IsBlock, Dead;
    var h', a := ClosedBig(h, b), PageOf(b);
    assert LiveOk(h, b) && ArenaOk(h, groups, a);
    forall e | 0 <= e < DESC_CNT
      ensures FreeOk(h', e)
    {
      assert FreeOk(h, e);
    }
    forall c | c in h'.arenas
      ensures ArenaOk(h', groups - {a}, c)
    {
      assert ArenaOk(h, groups, c);
      if h.arenas[c].Small? {
        DeadElsewhere(h.live, h'.live, b, c, h.arenas[c].desc);
      } else {
        BigPage(c);
      }
    }
    forall x | x in h'.live
      ensures LiveOk(h', x)
    {
      assert LiveOk(h, x);
      assert PageOf(x) == a ==> x == b;
    }
  }

  // What the invariant says of live blocks.

  ghost predicate HasExtent(h: Heap, b: int) {
    PageOf(b) in h.arenas && (h.arenas[PageOf(b)].Small? ==> h.arenas[PageOf(b)].desc < DESC_CNT)
  }

  /** How many bytes a live block has. */
  ghost function Extent(h: Heap, b: int): int
    requires HasExtent(h, b)
  {
    match h.arenas[PageOf(b)]
    case Small(d, _) => BlockSize(d)
    case Big(n) => n * PGSIZE - ARENA_SIZE
  }

  /** A live block is within its arena's pages, and has as many bytes as asked for unless that was almost 2^32. */
  lemma LiveInside(h: Heap, groups: Groups, b: int)
    requires Core(h, groups) && b in h.live
    ensures var a := PageOf(b);
            && HasExtent(h, b) && a in groups
            && a * PGSIZE + ARENA_SIZE <= b && b + Extent(h, b) <= (a + groups[a]) * PGSIZE
            && (h.live[b] <= Extent(h, b) <==> h.live[b] <= TWO32 - ARENA_SIZE)
  {
    hide Block, PageOf, Dead, FreeOk;
    var a := PageOf(b);
    assert LiveOk(h, b) && ArenaOk(h, groups, a);
    match h.arenas[a] {
      case Small(d, _) =>
        var i :| 0 <= i < PerArena(d) && b == Block(a, d, i);
        BlockInPage(a, d, i);
      case Big(n) =>
    }
  }

  /** Live blocks do not overlap. */
  lemma LiveApart(h: Heap, groups: Groups, b: int, c: int)
    requires Core(h, groups) && Apart(groups) && b in h.live && c in h.live && b < c
    ensures HasExtent(h, b)
    ensures b + Extent(h, b) <= c
  {
    hide Block, Dead, FreeOk, ArenaOk;
    LiveInside(h, groups, b);
    LiveInside(h, groups, c);
    assert LiveOk(h, b) && LiveOk(h, c);
    var a := PageOf(b);
    if a == PageOf(c) && h.arenas[a].Small? {
      var d := h.arenas[a].desc;
      var i :| 0 <= i < PerArena(d) && b == Block(a, d, i);
      var j :| 0 <= j < PerArena(d) && c == Block(a, d, j);
      if j <= i {
        BlockOrder(a, d, j, i);
      } else {
        BlocksApart(a, d, i, j);
      }
    }
  }

  lemma BlockOrder(a: int, d: nat, j: int, i: int)
    requires d < DESC_CNT && j <= i
    ensures Block(a, d, j) <= Block(a, d, i)
  {
    MulMono(BlockSize(d), j, i);
  }

  // How many pages a large request takes.

  function Wrap32(x: int): int {
    x % TWO32
  }

  function PageCount(size: nat): nat {
    Wrap32(Wrap32(size + ARENA_SIZE) + PGSIZE - 1) / PGSIZE
  }

  /** The pages hold the block and its header exactly when the additions do not wrap; if they wrap, the count is 0,
      which the page allocator refuses, except for the last eleven sizes, where it is 1. */
  lemma PageCountExact(size: nat)
    requires 0 < size < TWO32
    ensures var n := PageCount(size);
            && (n > 0 ==> (size + ARENA_SIZE <= n * PGSIZE <==> size <= TWO32 - ARENA_SIZE))
            && (n == 0 <==> TWO32 - PGSIZE - ARENA_SIZE < size <= TWO32 - ARENA_SIZE)
            && (size > TWO32 - ARENA_SIZE ==> n == 1)
            && (n > 0 && size <= TWO32 - ARENA_SIZE ==> (n - 1) * PGSIZE < size + ARENA_SIZE)
  {
    if size + ARENA_SIZE < TWO32 {
      DivUnique(size + ARENA_SIZE, TWO32, 0, size + ARENA_SIZE);
      var x := size + ARENA_SIZE + PGSIZE - 1;
      if x < TWO32 {
        DivUnique(x, TWO32, 0, x);
      } else {
        DivUnique(x, TWO32, 1, x - TWO32);
      }
    } else {
      DivUnique(size + ARENA_SIZE, TWO32, 1, size + ARENA_SIZE - TWO32);
    }
  }

  /** The largest request a size can express gets one page. */
  lemma WrappedRequest()
    ensures PageCount(TWO32 - 1) == 1
  {
    PageCountExact(TWO32 - 1);
  }

  /** A live block passes the alignment checks that are made when it is given back. */
  lemma Aligned(h: Heap, groups: Groups, b: int)
    requires Core(h, groups) && b in h.live
    ensures PageOf(b) in h.arenas
    ensures match h.arenas[PageOf(b)]
            case Small(d, _) => d < DESC_CNT && (b % PGSIZE - ARENA_SIZE) % BlockSize(d) == 0
            case Big(_) => b % PGSIZE == ARENA_SIZE
  {
    hide Dead, FreeOk, ArenaOk;
    assert LiveOk(h, b);
    var a := PageOf(b);
    if h.arenas[a].Small? {
      var d := h.arenas[a].desc;
      var i :| 0 <= i < PerArena(d) && b == Block(a, d, i);
      BlockInPage(a, d, i);
      DivUnique(b, PGSIZE, a, ARENA_SIZE + i * BlockSize(d));
      DivUnique(i * BlockSize(d), BlockSize(d), i, 0);
    } else {
      DivUnique(b, PGSIZE, a, ARENA_SIZE);
    }
  }

  // The operations.

  datatype Ptr = Null | Ptr(addr: int)

  datatype Desc = Desc(blockSize: nat, blocksPerArena: nat)

  ghost predicate DescsOk(descs: seq<Desc>) {
    |descs| == DESC_CNT && forall d | 0 <= d < DESC_CNT :: descs[d] == Desc(BlockSize(d), PerArena(d))
  }

  /** D is the least descriptor for SIZE bytes, or DESC_CNT if there is none. */
  ghost predicate IsDescFor(size: nat, d: nat) {
    d <= DESC_CNT && (d < DESC_CNT ==> size <= BlockSize(d)) && forall e | 0 <= e < d :: BlockSize(e) < size
  }

  /** A state of the block allocator and of the page allocator below it. */
  datatype World = World(heap: Heap, groups: Groups)

  /** A request for SIZE bytes gives P and leads from one state to another. The pages come from the N kernel pages at
      BASE. */
  ghost predicate Allocates(w: World, base: int, n: nat, size: nat, p: Ptr, w': World) {
    if size == 0 then p.Null? && w' == w
    else
      exists d: nat :: IsDescFor(size, d)
          && if d < DESC_CNT then AllocatesSmall(w, base, n, d, size, p, w') else AllocatesBig(w, base, n, size, p, w')
  }

  ghost predicate AllocatesSmall(w: World, base: int, n: nat, d: nat, size: nat, p: Ptr, w': World)
    requires d < DESC_CNT
  {
    |w.heap.free| == DESC_CNT &&
    if w.heap.free[d] != [] then
      && CanPop(w.heap, d)
      && p == Ptr(w.heap.free[d][0]) && w' == World(Popped(w.heap, d, size), w.groups)
    else if p.Null? then
      w' == w && TakesFirst(w.groups, base, n, 1, NoPages)
    else
      var a := PageOf(p.addr);
      && a >= 0 && TakesFirst(w.groups, base, n, 1, Pages(a)) && p.addr == Block(a, d, 0)
      && CanPop(Opened(w.heap, d, a), d)
      && w' == World(Popped(Opened(w.heap, d, a), d, size), w.groups[a := 1])
  }

  ghost predicate AllocatesBig(w: World, base: int, n: nat, size: nat, p: Ptr, w': World) {
    var cnt := PageCount(size);
    if p.Null? then
      w' == w && (cnt == 0 || TakesFirst(w.groups, base, n, cnt, NoPages))
    else
      var a := PageOf(p.addr);
      && a >= 0 && cnt > 0 && TakesFirst(w.groups, base, n, cnt, Pages(a)) && p.addr == a * PGSIZE + ARENA_SIZE
      && w' == World(OpenedBig(w.heap, a, cnt, size), w.groups[a := cnt])
  }

  /** There is nowhere to put SIZE bytes: no free block of the least fitting size and no page to make some of, or no
      pages in a row for a large request, which may also come out as one for no pages. */
  ghost predicate NoPlace(w: World, base: int, n: nat, size: nat) {
    && (forall d: nat | d < DESC_CNT && d < |w.heap.free| && IsDescFor(size, d) ::
          w.heap.free[d] == [] && forall p :: !Room(w.groups, base, n, p, 1))
    && (IsDescFor(size, DESC_CNT) ==> PageCount(size) == 0 || forall p :: !Room(w.groups, base, n, p, PageCount(size)))
  }

  /** A request gives null exactly if it is for nothing or there is nowhere to put it, and then nothing changes;
      otherwise a block is live that was not, and no other changes. */
  lemma AllocatesExact(w: World, base: int, n: nat, size: nat, p: Ptr, w': World)
    requires Allocates(w, base, n, size, p, w')
    ensures p.Null? <==> size == 0 || NoPlace(w, base, n, size)
    ensures p.Null? ==> w' == w
    ensures p.Ptr? ==> w'.heap.live == w.heap.live[p.addr := size]
  {
    hide Block, PageOf, PageCount, Room, BlockSize;
    if size > 0 {
      var d: nat :| IsDescFor(size, d)
          && if d < DESC_CNT then AllocatesSmall(w, base, n, d, size, p, w') else AllocatesBig(w, base, n, size, p, w');
      forall e: nat | IsDescFor(size, e)
        ensures e == d
      {
        DescUnique(size, d, e);
      }
      hide IsDescFor;
    }
  }

  lemma MadeNone(w: World, base: int, n: nat)
    ensures Allocates(w, base, n, 0, Null, w)
  {
  }

  lemma MadeBy(w: World, base: int, n: nat, size: nat, d: nat, p: Ptr, w': World)
    requires size > 0 && IsDescFor(size, d)
    requires if d < DESC_CNT then AllocatesSmall(w, base, n, d, size, p, w') else AllocatesBig(w, base, n, size, p, w')
    ensures Allocates(w, base, n, size, p, w')
  {
    hide AllocatesSmall, AllocatesBig;
  }

  lemma DescUnique(size: nat, d: nat, e: nat)
    requires IsDescFor(size, d) && IsDescFor(size, e)
    ensures d == e
  {
    hide BlockSize;
  }

  ghost predicate CanPop(h: Heap, d: nat) {
    && d < |h.free| && h.free[d] != [] && PageOf(h.free[d][0]) in h.arenas
    && h.arenas[PageOf(h.free[d][0])].Small? && h.arenas[PageOf(h.free[d][0])].freeCnt > 0
  }

  /** Giving back the live block B. */
  ghost predicate Frees(w: World, b: int, w': World) {
    && |w.heap.free| == DESC_CNT && PageOf(b) in w.heap.arenas
    && var a := PageOf(b);
       match w.heap.arenas[a]
       case Big(_) => w' == World(ClosedBig(w.heap, b), w.groups - {a})
       case Small(d, f) =>
         d < DESC_CNT && w' == if f + 1 < PerArena(d) then World(Pushed(w.heap, b), w.groups)
                               else World(Closed(Pushed(w.heap, b), a, d), w.groups - {a})
  }

  /** The page or pages of a block go back exactly when no other live block is in them. */
  lemma FreesLast(w: World, b: int, w': World)
    requires Ok(w.heap, w.groups) && b in w.heap.live && Frees(w, b, w')
    ensures Ok(w'.heap, w'.groups)
    ensures w'.heap.live == w.heap.live - {b}
    ensures PageOf(b) !in w'.groups <==> forall x | x in w.heap.live && x != b :: PageOf(x) != PageOf(b)
    ensures w'.groups == w.groups || w'.groups == w.groups - {PageOf(b)}
  {
    hide Block, PageOf, Dead, IsBlock, FreeOk, LiveOk, ArenaOk, Minus, BlockSet;
    var h, a := w.heap, PageOf(b);
    match h.arenas[a] {
      case Big(_) =>
        ClosedBigCore(h, w.groups, b);
        BigAlone(h, w.groups, b);
      case Small(d, f) =>
        PushedCore(h, w.groups, b, d);
        SmallAlone(h, w.groups, b, d);
        if f + 1 >= PerArena(d) {
          ClosedCore(Pushed(h, b), w.groups, a, d);
        }
    }
  }

  lemma BigAlone(h: Heap, groups: Groups, b: int)
    requires Core(h, groups) && b in h.live && PageOf(b) in h.arenas && h.arenas[PageOf(b)].Big?
    ensures forall x | x in h.live && x != b :: PageOf(x) != PageOf(b)
  {
    hide PageOf, FreeOk, ArenaOk;
    forall x | x in h.live && x != b
      ensures PageOf(x) != PageOf(b)
    {
      assert LiveOk(h, x) && LiveOk(h, b);
    }
  }

  lemma SmallAlone(h: Heap, groups: Groups, b: int, d: nat)
    requires Core(h, groups) && b in h.live && d < DESC_CNT && OfArena(h, PageOf(b), d)
    ensures PageOf(b) in groups
    ensures h.arenas[PageOf(b)].freeCnt + 1 == PerArena(d)
            <==> forall x | x in h.live && x != b :: PageOf(x) != PageOf(b)
  {
    hide Block, PageOf, Dead, FreeOk;
    var a, live' := PageOf(b), h.live - {b};
    LiveIndex(h, groups, b, d);
    DeadAll(live', a, d, PerArena(d));
    assert ArenaOk(h, groups, a);
    forall i | 0 <= i < PerArena(d)
      ensures PageOf(Block(a, d, i)) == a
    {
      BlockInPage(a, d, i);
    }
    if forall i | 0 <= i < PerArena(d) :: Block(a, d, i) !in live' {
      forall x | x in h.live && x != b
        ensures PageOf(x) != a
      {
        assert LiveOk(h, x);
      }
    } else {
      var i :| 0 <= i < PerArena(d) && Block(a, d, i) in live';
      var x := Block(a, d, i);
      assert x in h.live && x != b && PageOf(x) == a;
    }
  }

  /** An allocation keeps the invariant, and its block is live where nothing was. */
  lemma AllocatesKeeps(w: World, base: int, n: nat, size: nat, p: Ptr, w': World)
    requires Ok(w.heap, w.groups) && base > 0 && 0 <= size < TWO32 && Allocates(w, base, n, size, p, w')
    requires forall g | g in w.groups :: w.groups[g] > 0
    ensures Ok(w'.heap, w'.groups)
    ensures p.Null? ==> w' == w
    ensures p.Ptr? ==> size > 0 && p.addr !in w.heap.live && w'.heap.live == w.heap.live[p.addr := size]
  {
    hide Block, PageOf, Dead, IsBlock, FreeOk, LiveOk, ArenaOk, Popped, Opened, OpenedBig, TakesFirst, AllocatesSmall,
         AllocatesBig;
    if size > 0 {
      var d: nat :| IsDescFor(size, d)
          && if d < DESC_CNT then AllocatesSmall(w, base, n, d, size, p, w') else AllocatesBig(w, base, n, size, p, w');
      if d < DESC_CNT {
        SmallKeeps(w, base, n, d, size, p, w');
      } else {
        BigKeeps(w, base, n, size, p, w');
      }
    }
  }

  lemma RoomIsNew(groups: Groups, base: int, n: nat, cnt: int, a: nat)
    requires cnt > 0 && TakesFirst(groups, base, n, cnt, Pages(a)) && forall g | g in groups :: groups[g] > 0
    ensures a !in groups && base <= a
  {
    assert a in groups ==> Covered(groups, a);
  }

  lemma SmallKeeps(w: World, base: int, n: nat, d: nat, size: nat, p: Ptr, w': World)
    requires Ok(w.heap, w.groups) && base > 0 && d < DESC_CNT && 0 < size <= BlockSize(d)
    requires AllocatesSmall(w, base, n, d, size, p, w') && forall g | g in w.groups :: w.groups[g] > 0
    ensures Ok(w'.heap, w'.groups)
    ensures p.Null? ==> w' == w
    ensures p.Ptr? ==> p.addr !in w.heap.live && w'.heap.live == w.heap.live[p.addr := size]
  {
    hide Block, PageOf, Dead, IsBlock, LiveOk, ArenaOk, TakesFirst, Blocks, FreeOk;
    if w.heap.free[d] != [] {
      PoppedCore(w.heap, w.groups, d, size);
      PopNew(w.heap, w.groups, d);
    } else if p.Ptr? {
      var a := PageOf(p.addr);
      RoomIsNew(w.groups, base, n, 1, a);
      var h := Opened(w.heap, d, a);
      OpenedCore(w.heap, w.groups, w.groups[a := 1], d, a);
      PoppedCore(h, w.groups[a := 1], d, size);
      PopNew(h, w.groups[a := 1], d);
      FirstBlock(a, d);
    }
  }

  lemma FirstBlock(a: int, d: nat)
    requires d < DESC_CNT
    ensures Blocks(a, d, PerArena(d)) != [] && Blocks(a, d, PerArena(d))[0] == Block(a, d, 0)
            && PageOf(Block(a, d, 0)) == a
  {
    BlockInPage(a, d, 0);
  }

  lemma PopNew(h: Heap, groups: Groups, d: nat)
    requires Core(h, groups) && d < DESC_CNT && h.free[d] != []
    ensures h.free[d][0] !in h.live
  {
    var b, i := FirstIsBlock(h, groups, d);
  }

  lemma BigKeeps(w: World, base: int, n: nat, size: nat, p: Ptr, w': World)
    requires Ok(w.heap, w.groups) && base > 0 && 0 < size < TWO32
    requires AllocatesBig(w, base, n, size, p, w') && forall g | g in w.groups :: w.groups[g] > 0
    ensures Ok(w'.heap, w'.groups)
    ensures p.Null? ==> w' == w
    ensures p.Ptr? ==> p.addr !in w.heap.live && w'.heap.live == w.heap.live[p.addr := size]
  {
    hide PageOf, FreeOk, LiveOk, ArenaOk, TakesFirst, PageCount;
    PageCountExact(size);
    if p.Ptr? {
      var a := PageOf(p.addr);
      RoomIsNew(w.groups, base, n, PageCount(size), a);
      OpenedBigCore(w.heap, w.groups, w.groups[a := PageCount(size)], a, PageCount(size), size);
    }
  }

  // Whole runs.

  /** The groups of the page allocator, those of other users included, do not overlap. */
  ghost predicate Good(w: World) {
    Ok(w.heap, w.groups) && Apart(w.groups) && forall g | g in w.groups :: w.groups[g] > 0
  }

  datatype Event = Alloc(size: nat, p: Ptr) | Free(b: int) | Others

  /** A request, a live block given back, or other users of the page allocator getting and giving back pages of their
      own. */
  ghost predicate Step(w: World, base: int, n: nat, e: Event, w': World) {
    match e
    case Alloc(size, p) => size < TWO32 && Allocates(w, base, n, size, p, w')
    case Free(b) => b in w.heap.live && Frees(w, b, w')
    case Others =>
      && w'.heap == w.heap && Apart(w'.groups) && (forall g | g in w'.groups :: w'.groups[g] > 0)
      && forall a | a in w.heap.arenas && a in w.groups :: a in w'.groups && w'.groups[a] == w.groups[a]
  }

  lemma StepKeeps(w: World, base: int, n: nat, e: Event, w': World)
    requires Good(w) && base > 0 && Step(w, base, n, e, w')
    ensures Good(w')
  {
    hide Ok, Apart, Allocates, Frees;
    match e {
      case Alloc(size, p) =>
        AllocatesKeeps(w, base, n, size, p, w');
        AllocatesApart(w, base, n, size, p, w');
      case Free(b) =>
        FreesLast(w, b, w');
        if w'.groups != w.groups {
          SmallerApart(w.groups, PageOf(b));
        }
      case Others =>
        OthersOk(w, w');
    }
  }

  lemma SmallerApart(groups: Groups, a: int)
    requires Apart(groups)
    ensures Apart(groups - {a})
  {
  }

  lemma OthersOk(w: World, w': World)
    requires Ok(w.heap, w.groups) && w'.heap == w.heap
    requires forall a | a in w.heap.arenas && a in w.groups :: a in w'.groups && w'.groups[a] == w.groups[a]
    ensures Ok(w'.heap, w'.groups)
  {
    hide FreeOk, LiveOk, Dead;
    forall a | a in w.heap.arenas
      ensures ArenaOk(w.heap, w'.groups, a)
    {
      assert ArenaOk(w.heap, w.groups, a);
    }
  }

  lemma AllocatesApart(w: World, base: int, n: nat, size: nat, p: Ptr, w': World)
    requires Apart(w.groups) && (forall g | g in w.groups :: w.groups[g] > 0) && Allocates(w, base, n, size, p, w')
    ensures Apart(w'.groups) && forall g | g in w'.groups :: w'.groups[g] > 0
  {
    hide Apart, Covered, Popped, Opened, OpenedBig, PageCount, Block, PageOf;
    if size > 0 {
      var d: nat :| IsDescFor(size, d)
          && if d < DESC_CNT then AllocatesSmall(w, base, n, d, size, p, w') else AllocatesBig(w, base, n, size, p, w');
      if w'.groups != w.groups {
        AddGroup(w.groups, w'.groups, PageOf(p.addr), if d < DESC_CNT then 1 else PageCount(size));
      }
    }
  }

  /** WS are the states of a run with events ES. */
  ghost predicate Run(ws: seq<World>, base: int, n: nat, es: seq<Event>) {
    |ws| == |es| + 1 && forall k | 0 <= k < |es| :: Step(ws[k], base, n, es[k], ws[k + 1])
  }

  /** In every state of a run that starts well, a live block lies in the pages of its arena, after the header, and is as
      large as asked for if and only if that was not almost 2^32. */
  lemma RunInside(ws: seq<World>, base: int, n: nat, es: seq<Event>, k: nat, b: int)
    requires base > 0 && Run(ws, base, n, es) && Good(ws[0]) && k <= |es| && b in ws[k].heap.live
    ensures var h, a := ws[k].heap, PageOf(b);
            && HasExtent(h, b) && a in ws[k].groups
            && a * PGSIZE + ARENA_SIZE <= b && b + Extent(h, b) <= (a + ws[k].groups[a]) * PGSIZE
            && (h.live[b] <= Extent(h, b) <==> h.live[b] <= TWO32 - ARENA_SIZE)
  {
    hide Step, Ok, Extent, PageOf, HasExtent;
    RunGood(ws, base, n, es, k);
    OkCore(ws[k].heap, ws[k].groups);
    LiveInside(ws[k].heap, ws[k].groups, b);
  }

  /** And live blocks do not overlap. */
  lemma RunSafe(ws: seq<World>, base: int, n: nat, es: seq<Event>, k: nat, b: int, c: int)
    requires base > 0 && Run(ws, base, n, es) && Good(ws[0]) && k <= |es|
    requires b in ws[k].heap.live && c in ws[k].heap.live && b < c
    ensures HasExtent(ws[k].heap, b) && b + Extent(ws[k].heap, b) <= c
  {
    hide Step, Ok, Extent, PageOf, HasExtent;
    RunGood(ws, base, n, es, k);
    OkCore(ws[k].heap, ws[k].groups);
    LiveApart(ws[k].heap, ws[k].groups, b, c);
  }

  lemma OkCore(h: Heap, groups: Groups)
    requires Ok(h, groups)
    ensures Core(h, groups)
  {
  }

  lemma {:induction false} RunGood(ws: seq<World>, base: int, n: nat, es: seq<Event>, k: nat)
    requires base > 0 && Run(ws, base, n, es) && Good(ws[0]) && k <= |es|
    ensures Good(ws[k])
  {
    hide Step, Good;
    if k > 0 {
      RunGood(ws, base, n, es, k - 1);
      assert Step(ws[k - 1], base, n, es[k - 1], ws[k - 1 + 1]);
      StepKeeps(ws[k - 1], base, n, es[k - 1], ws[k]);
    }
  }

  class KernelHeap {
    const pages: Allocator
    var descs: seq<Desc>
    var free: seq<seq<int>>
    var arenas: map<int, Arena>
    ghost var live: map<int, nat>

    ghost function Now(): World
      reads this, pages
    {
      World(Heap(free, arenas, live), pages.live)
    }

    ghost predicate Valid()
      reads this, pages, pages.kernel.bits, pages.user.bits
    {
      pages.Valid() && DescsOk(descs) && Good(Now())
    }

    constructor (pages: Allocator)
      requires pages.Valid()
      ensures Valid() && this.pages == pages && live == map[] && Now().groups == old(pages.live)
    {
      this.pages := pages;
      arenas := map[];
      live := map[];
      var ds := [];
      var size := 16;
      while size < PGSIZE / 2
        invariant |ds| <= DESC_CNT && size == [16, 32, 64, 128, 256, 512, 1024, 2048][|ds|]
        invariant forall d | 0 <= d < |ds| :: ds[d] == Desc(BlockSize(d), PerArena(d))
        decreases DESC_CNT - |ds|
      {
        ds := ds + [Desc(size, (PGSIZE - ARENA_SIZE) / size)];
        size := size * 2;
      }
      descs := ds;
      free := seq(|ds|, _ => []);
      new;
      assert forall d | 0 <= d < DESC_CNT :: free[d] == [];
    }

    method FindDesc(size: nat) returns (d: nat)
      requires DescsOk(descs)
      ensures IsDescFor(size, d)
    {
      d := 0;
      while d < |descs|
        invariant d <= DESC_CNT && forall e | 0 <= e < d :: BlockSize(e) < size
      {
        if descs[d].blockSize >= size {
          break;
        }
        d := d + 1;
      }
    }

    /** Makes the page A an arena of descriptor D. */
    method Open(d: nat, a: int)
      requires DescsOk(descs) && d < DESC_CNT && |free| == DESC_CNT
      modifies this`free, this`arenas
      ensures Heap(free, arenas, live) == Opened(old(Heap(free, arenas, live)), d, a)
    {
      arenas := arenas[a := Small(d, descs[d].blocksPerArena)];
      assert free[d] + Blocks(a, d, 0) == free[d];
      for i := 0 to descs[d].blocksPerArena
        invariant arenas == old(arenas)[a := Small(d, PerArena(d))]
        invariant free == old(free)[d := old(free)[d] + Blocks(a, d, i)]
      {
        assert Blocks(a, d, i + 1) == Blocks(a, d, i) + [Block(a, d, i)];
        assert old(free)[d] + Blocks(a, d, i + 1) == free[d] + [Block(a, d, i)];
        free := free[d := free[d] + [Block(a, d, i)]];
      }
    }

    method Pop(d: nat, ghost size: nat) returns (b: int)
      requires CanPop(Heap(free, arenas, live), d)
      modifies this`free, this`arenas, this`live
      ensures b == old(free)[d][0] && Heap(free, arenas, live) == Popped(old(Heap(free, arenas, live)), d, size)
    {
      b := free[d][0];
      free := free[d := free[d][1..]];
      var a := PageOf(b);
      arenas := arenas[a := Small(arenas[a].desc, arenas[a].freeCnt - 1)];
      live := live[b := size];
    }

    method MallocSmall(d: nat, size: nat) returns (p: Ptr)
      requires Valid() && d < DESC_CNT && 0 < size <= BlockSize(d)
      modifies this, pages, pages.kernel.bits, pages.user.bits
      ensures pages.Valid() && descs == old(descs)
      ensures AllocatesSmall(old(Now()), pages.kernelBase, pages.kernel.bitCnt, d, size, p, Now())
    {
      hide Core, Apart, Popped, Opened, TakesFirst, PageOf, Block, CanPop, Sound, Bitmap.Unpacked;
      ghost var w := Now();
      PoolStart(pages);
      CoreLists(w.heap, w.groups);
      if free[d] == [] {
        var r := pages.GetMultiple(false, 1);
        if r.NoPages? {
          return Null;
        }
        Open(d, r.first);
        OpenedPops(w.heap, w.groups, d, r.first, pages.kernelBase, pages.kernel.bitCnt);
      } else {
        CorePops(w.heap, w.groups, d);
      }
      var b := Pop(d, size);
      p := Ptr(b);
    }

    method MallocBig(size: nat) returns (p: Ptr)
      requires Valid() && 0 < size < TWO32
      modifies this, pages, pages.kernel.bits, pages.user.bits
      ensures pages.Valid() && descs == old(descs)
      ensures AllocatesBig(old(Now()), pages.kernelBase, pages.kernel.bitCnt, size, p, Now())
    {
      hide Ok, Apart, TakesFirst, PageOf, Sound, Bitmap.Unpacked, PageCount;
      var cnt := PageCount(size);
      var r := pages.GetMultiple(false, cnt);
      if r.NoPages? {
        return Null;
      }
      var a := r.first;
      BigPage(a);
      arenas := arenas[a := Big(cnt)];
      live := live[a * PGSIZE + ARENA_SIZE := size];
      p := Ptr(a * PGSIZE + ARENA_SIZE);
    }

    method Malloc(size: nat) returns (p: Ptr)
      requires Valid() && size < TWO32
      modifies this, pages, pages.kernel.bits, pages.user.bits
      ensures Valid()
      ensures Allocates(old(Now()), pages.kernelBase, pages.kernel.bitCnt, size, p, Now())
      ensures p.Null? <==> size == 0 || NoPlace(old(Now()), pages.kernelBase, pages.kernel.bitCnt, size)
      ensures if p.Null? then Now() == old(Now()) else p.addr !in old(live) && live == old(live)[p.addr := size]
    {
      hide Ok, Apart, AllocatesSmall, AllocatesBig, Sound, Bitmap.Unpacked, Good, NoPlace, Allocates;
      ghost var w := Now();
      if size == 0 {
        assert Allocates(w, pages.kernelBase, pages.kernel.bitCnt, 0, Null, w) by {
          MadeNone(w, pages.kernelBase, pages.kernel.bitCnt);
        }
        return Null;
      }
      PoolStart(pages);
      var d := FindDesc(size);
      if d == |descs| {
        p := MallocBig(size);
      } else {
        p := MallocSmall(d, size);
      }
      MadeBy(w, pages.kernelBase, pages.kernel.bitCnt, size, d, p, Now());
      StepKeeps(w, pages.kernelBase, pages.kernel.bitCnt, Alloc(size, p), Now());
      AllocatesExact(w, pages.kernelBase, pages.kernel.bitCnt, size, p, Now());
      OkGood(w);
      AllocatesKeeps(w, pages.kernelBase, pages.kernel.bitCnt, size, p, Now());
    }

    method ListRemove(d: nat, b: int)
      requires d < |free| && b in free[d]
      modifies this`free
      ensures free == old(free)[d := Minus(old(free)[d], {b})]
    {
      free := free[d := Minus(free[d], {b})];
    }

    /** Takes the blocks of the arena A, all of which are on it, off the free list. */
    method Close(d: nat, a: int)
      requires DescsOk(descs) && d < DESC_CNT && |free| == DESC_CNT
      requires forall i | 0 <= i < PerArena(d) :: Block(a, d, i) in free[d]
      modifies this`free
      ensures free == old(free)[d := Minus(old(free)[d], BlockSet(a, d, PerArena(d)))]
    {
      hide Block, Minus;
      MinusNone(free[d]);
      assert BlockSet(a, d, 0) == {};
      for i := 0 to descs[d].blocksPerArena
        invariant free == old(free)[d := Minus(old(free)[d], BlockSet(a, d, i))]
      {
        NotYetRemoved(a, d, i);
        MinusMinus(old(free)[d], BlockSet(a, d, i), Block(a, d, i));
        assert BlockSet(a, d, i + 1) == BlockSet(a, d, i) + {Block(a, d, i)};
        ListRemove(d, Block(a, d, i));
      }
    }

    /** Frees a live block, or does nothing for null. */
    method Free(p: Ptr)
      requires Valid() && (p.Ptr? ==> p.addr in live)
      modifies this, pages, pages.kernel.bits, pages.user.bits
      ensures Valid()
      ensures if p.Null? then Now() == old(Now()) else Frees(old(Now()), p.addr, Now())
    {
      hide Core, Apart, Sound, Bitmap.Unpacked, PageOf, Block, Minus, BlockSet, NoneIdle, Inside, Covered,
        Positive, Cut;
      if p.Ptr? {
        var b := p.addr;
        var a := PageOf(b);
        ghost var w := Now();
        FreeFacts(w.heap, w.groups, b);
        match arenas[a] {
          case Small(d, f) =>
            ghost var h := Pushed(w.heap, b);
            PushedCore(w.heap, w.groups, b, d);
            free := free[d := [b] + free[d]];
            arenas := arenas[a := Small(d, f + 1)];
            live := live - {b};
            if f + 1 >= descs[d].blocksPerArena {
              ClosedCore(h, w.groups, a, d);
              CoreLength(h, w.groups);
              Close(d, a);
              arenas := arenas - {a};
              WholeGroup(pages, a);
              pages.FreeMultiple(Pages(a), 1);
            }
          case Big(n) =>
            ClosedBigCore(w.heap, w.groups, b);
            arenas := arenas - {a};
            live := live - {b};
            WholeGroup(pages, a);
            pages.FreeMultiple(Pages(a), n);
        }
        StepKeeps(w, 1, 0, Event.Free(b), Now());
      }
    }

    method BlockBytes(b: int) returns (size: int)
      requires Valid() && b in live
      ensures HasExtent(Now().heap, b) && size == Extent(Now().heap, b)
    {
      hide FreeOk, Dead, Apart, Sound, Bitmap.Unpacked, Block, IsBlock;
      ghost var w := Now();
      assert LiveOk(w.heap, b);
      match arenas[PageOf(b)] {
        case Small(d, _) => size := descs[d].blockSize;
        case Big(n) => size := PGSIZE * n - b % PGSIZE;
      }
    }

    /** Moves a block to one of another size.  COPIED is the number of bytes taken along. */
    method Realloc(p: Ptr, newSize: nat) returns (q: Ptr, copied: int)
      requires Valid() && newSize < TWO32 && (p.Ptr? ==> p.addr in live)
      modifies this, pages, pages.kernel.bits, pages.user.bits
      ensures Valid()
      ensures newSize == 0 ==> q.Null? && if p.Null? then Now() == old(Now()) else Frees(old(Now()), p.addr, Now())
      ensures newSize > 0 ==>
                (q.Null? <==> NoPlace(old(Now()), pages.kernelBase, pages.kernel.bitCnt, newSize))
      ensures newSize > 0 && p.Null? ==>
                Allocates(old(Now()), pages.kernelBase, pages.kernel.bitCnt, newSize, q, Now())
      ensures newSize > 0 && p.Ptr? && q.Ptr? ==>
                exists w :: Allocates(old(Now()), pages.kernelBase, pages.kernel.bitCnt, newSize, q, w)
                            && p.addr in w.heap.live && Frees(w, p.addr, Now())
      ensures newSize > 0 && q.Null? ==> Now() == old(Now())
      ensures newSize > 0 && q.Ptr? ==> q.addr !in old(live)
      ensures newSize > 0 && q.Ptr? ==> live == (if p.Null? then old(live) else old(live) - {p.addr})[q.addr := newSize]
      ensures newSize > 0 && q.Ptr? && p.Ptr? ==> Copies(old(Now()).heap, p.addr, newSize, copied)
      ensures newSize > 0 && q.Ptr? && p.Ptr? ==>
                && HasExtent(Now().heap, q.addr) && HasExtent(old(Now()).heap, p.addr)
                && (copied <= Extent(Now().heap, q.addr) <==>
                    newSize <= TWO32 - ARENA_SIZE || Extent(old(Now()).heap, p.addr) <= PGSIZE - ARENA_SIZE)
    {
      hide Ok, Apart, Sound, Bitmap.Unpacked, Allocates, Frees, PageOf, Extent, Good, NoPlace;
      copied := 0;
      if newSize == 0 {
        Free(p);
        q := Null;
      } else {
        ghost var w := Now();
        OkGood(w);
        q := Malloc(newSize);
        PoolStart(pages);
        AllocatesKeeps(w, pages.kernelBase, pages.kernel.bitCnt, newSize, q, Now());
        if p.Ptr? && q.Ptr? {
          ghost var w' := Now();
          var oldSize := BlockBytes(p.addr);
          OkGood(w');
          KindKept(w, pages.kernelBase, pages.kernel.bitCnt, newSize, q, w', PageOf(p.addr));
          SameExtent(w.heap, w.groups, w'.heap, w'.groups, p.addr);
          CopyFits(w.heap, w.groups, p.addr, newSize);
          NewExtent(w, pages.kernelBase, pages.kernel.bitCnt, newSize, q, w');
          copied := if newSize < oldSize then newSize else oldSize;
          Free(p);
          FreesLast(w', p.addr, Now());
          OkGood(Now());
          FreesKind(w', p.addr, Now(), q.addr);
        }
      }
    }
  }

  /** The bytes copied are within the old block and the new size, and all that the smaller request asked for. */
  ghost predicate Copies(h: Heap, b: int, newSize: nat, copied: int) {
    && b in h.live && HasExtent(h, b)
    && 0 <= copied <= Extent(h, b) && copied <= newSize
    && (h.live[b] <= TWO32 - ARENA_SIZE ==> copied >= if h.live[b] < newSize then h.live[b] else newSize)
  }

  /** The new block has the bytes asked for, or, for the last eleven sizes, those of one page. */
  lemma NewExtent(w: World, base: int, n: nat, size: nat, q: Ptr, w': World)
    requires Ok(w.heap, w.groups) && base > 0 && 0 < size < TWO32 && q.Ptr? && Allocates(w, base, n, size, q, w')
    requires forall g | g in w.groups :: w.groups[g] > 0
    ensures HasExtent(w'.heap, q.addr)
    ensures if size <= TWO32 - ARENA_SIZE then size <= Extent(w'.heap, q.addr)
            else Extent(w'.heap, q.addr) == PGSIZE - ARENA_SIZE
  {
    hide Ok, PageOf, TakesFirst, PageCount, Allocates, Extent, HasExtent;
    AllocatesKeeps(w, base, n, size, q, w');
    OkCore(w'.heap, w'.groups);
    LiveInside(w'.heap, w'.groups, q.addr);
    PageCountExact(size);
    if size > TWO32 - ARENA_SIZE {
      LargeIsBig(w, base, n, size, q, w');
      BigExtent(w, base, n, size, q, w');
    }
  }

  lemma LargeIsBig(w: World, base: int, n: nat, size: nat, q: Ptr, w': World)
    requires size > 1024 && Allocates(w, base, n, size, q, w')
    ensures AllocatesBig(w, base, n, size, q, w')
  {
    hide AllocatesSmall, AllocatesBig;
    var d: nat :| IsDescFor(size, d) &&
      if d < DESC_CNT then AllocatesSmall(w, base, n, d, size, q, w') else AllocatesBig(w, base, n, size, q, w');
  }

  lemma BigExtent(w: World, base: int, n: nat, size: nat, q: Ptr, w': World)
    requires q.Ptr? && AllocatesBig(w, base, n, size, q, w')
    ensures HasExtent(w'.heap, q.addr) && Extent(w'.heap, q.addr) == PageCount(size) * PGSIZE - ARENA_SIZE
  {
    hide PageOf, TakesFirst, PageCount;
  }

  /** One live block, of 8000 bytes, in pages 1 and 2. */
  ghost function OneBlock(): World {
    World(Heap([[], [], [], [], [], [], []], map[1 := Big(2)], map[PGSIZE + ARENA_SIZE := 8000]), map[1 := 2])
  }

  lemma OneBlockGood()
    ensures Good(OneBlock())
  {
    var h := OneBlock().heap;
    BigPage(1);
    hide PageOf;
    assert forall d | 0 <= d < DESC_CNT :: h.free[d] == [];
    assert forall a, d :: !OfArena(h, a, d);
    assert forall d | 0 <= d < DESC_CNT :: FreeOk(h, d);
  }

  /** Asked to make it as large as a size can say, with one more page free, the code copies 8180 bytes into 4084. */
  lemma ReallocOverruns()
    ensures var w, b, size, q := OneBlock(), PGSIZE + ARENA_SIZE, TWO32 - 1, 3 * PGSIZE + ARENA_SIZE;
            var w' := World(OpenedBig(w.heap, 3, 1, size), w.groups[3 := 1]);
            && Good(w) && b in w.heap.live && Allocates(w, 1, 3, size, Ptr(q), w')
            && HasExtent(w.heap, b) && HasExtent(w'.heap, q)
            && Extent(w.heap, b) == 8180 < size && Extent(w'.heap, q) == 4084
  {
    var w, size, q := OneBlock(), TWO32 - 1, 3 * PGSIZE + ARENA_SIZE;
    var w' := World(OpenedBig(w.heap, 3, 1, size), w.groups[3 := 1]);
    OneBlockGood();
    BigPage(1);
    BigPage(3);
    WrappedRequest();
    OnlyRoom();
    assert IsDescFor(size, DESC_CNT);
    hide Good, PageOf, PageCount, TakesFirst;
    assert AllocatesBig(w, 1, 3, size, Ptr(q), w');
  }

  lemma OnlyRoom()
    ensures TakesFirst(map[1 := 2], 1, 3, 1, Pages(3))
  {
    var groups: Groups := map[1 := 2];
    assert 1 in groups && groups[1] == 2;
    assert forall g | g in groups :: g == 1;
    assert Covered(groups, 1) && Covered(groups, 2) && !Covered(groups, 3);
    forall p | p < 3
      ensures !Room(groups, 1, 3, p, 1)
    {
      if p >= 1 {
        assert Covered(groups, p);
      }
    }
  }

  /** Giving back one block does not change the extent of another. */
  lemma FreesKind(w: World, b: int, w': World, c: int)
    requires Core(w.heap, w.groups) && Core(w'.heap, w'.groups) && Frees(w, b, w')
    requires c in w.heap.live && c in w'.heap.live
    ensures HasExtent(w.heap, c) && HasExtent(w'.heap, c) && Extent(w'.heap, c) == Extent(w.heap, c)
  {
    hide FreeOk, Dead, PageOf, Block, IsBlock, Minus, BlockSet;
    assert LiveOk(w.heap, c) && LiveOk(w'.heap, c);
  }

  lemma CopyFits(h: Heap, groups: Groups, b: int, newSize: nat)
    requires Core(h, groups) && b in h.live
    ensures HasExtent(h, b)
    ensures var e := Extent(h, b); Copies(h, b, newSize, if newSize < e then newSize else e)
  {
    hide FreeOk, Dead, PageOf, Block, IsBlock;
    LiveInside(h, groups, b);
    assert LiveOk(h, b) && ArenaOk(h, groups, PageOf(b));
  }

  lemma OkGood(w: World)
    requires Good(w)
    ensures Ok(w.heap, w.groups) && Core(w.heap, w.groups) && forall g | g in w.groups :: w.groups[g] > 0
  {
  }

  /** An arena keeps its kind as long as a block is live in it. */
  lemma SameExtent(h: Heap, groups: Groups, h': Heap, groups': Groups, b: int)
    requires Core(h, groups) && Core(h', groups') && b in h.live && b in h'.live
    requires PageOf(b) in h.arenas && PageOf(b) in h'.arenas ==> SameKind(h.arenas[PageOf(b)], h'.arenas[PageOf(b)])
    ensures HasExtent(h, b) && HasExtent(h', b) && Extent(h', b) == Extent(h, b)
  {
    hide FreeOk, Dead, PageOf, Block, IsBlock;
    assert LiveOk(h, b) && LiveOk(h', b);
  }

  lemma KindKept(w: World, base: int, n: nat, size: nat, p: Ptr, w': World, c: int)
    requires Core(w.heap, w.groups) && size < TWO32 && Allocates(w, base, n, size, p, w')
    requires forall g | g in w.groups :: w.groups[g] > 0
    ensures c in w.heap.arenas ==> c in w'.heap.arenas && SameKind(w.heap.arenas[c], w'.heap.arenas[c])
  {
    hide FreeOk, LiveOk, Dead, PageOf, Block, TakesFirst, Blocks, PageCount;
    if size > 0 && c in w.heap.arenas {
      assert ArenaOk(w.heap, w.groups, c);
      var d: nat :| IsDescFor(size, d)
          && if d < DESC_CNT then AllocatesSmall(w, base, n, d, size, p, w') else AllocatesBig(w, base, n, size, p, w');
      if p.Ptr? && (d == DESC_CNT || w.heap.free[d] == []) {
        RoomIsNew(w.groups, base, n, if d < DESC_CNT then 1 else PageCount(size), PageOf(p.addr));
      }
    }
  }

  ghost predicate SameKind(x: Arena, y: Arena) {
    if x.Big? then x == y else y.Small? && x.desc == y.desc
  }

  lemma NotYetRemoved(a: int, d: nat, i: nat)
    requires d < DESC_CNT
    ensures Block(a, d, i) !in BlockSet(a, d, i)
  {
    hide Block;
    forall j | 0 <= j < i
      ensures Block(a, d, j) != Block(a, d, i)
    {
      OtherBlock(a, d, j, i);
    }
  }

  lemma CoreLength(h: Heap, groups: Groups)
    requires Core(h, groups)
    ensures |h.free| == DESC_CNT
  {
  }

  lemma FreeFacts(h: Heap, groups: Groups, b: int)
    requires Ok(h, groups) && b in h.live
    ensures Core(h, groups) && |h.free| == DESC_CNT && PageOf(b) in h.arenas && PageOf(b) in groups && PageOf(b) > 0
    ensures h.arenas[PageOf(b)].Small? ==> h.arenas[PageOf(b)].desc < DESC_CNT && groups[PageOf(b)] == 1
  {
    hide FreeOk, Dead, PageOf, Block, IsBlock;
    assert LiveOk(h, b) && ArenaOk(h, groups, PageOf(b));
  }

  /** A whole live group is inside one pool, all of it is live, and without it the other groups are left. */
  lemma WholeGroup(pages: Allocator, a: int)
    requires pages.Valid() && a in pages.live
    ensures a > 0 && pages.live[a] > 0 && Positive(pages.live)
    ensures || Inside(a, pages.live[a], pages.kernelBase, pages.kernel.bitCnt)
            || Inside(a, pages.live[a], pages.userBase, pages.user.bitCnt)
    ensures forall q | a <= q < a + pages.live[a] :: Covered(pages.live, q)
    ensures Cut(pages.live, a, pages.live[a]) == pages.live - {a}
  {
    hide Bitmap.Unpacked, Tracks, Cut;
    CutGroup(pages.live, a);
  }

  lemma PoolStart(pages: Allocator)
    requires pages.Valid()
    ensures pages.kernelBase > 0
  {
    hide Bitmap.Unpacked;
  }

  lemma CoreLists(h: Heap, groups: Groups)
    requires Ok(h, groups)
    ensures Core(h, groups) && |h.free| == DESC_CNT
  {
  }

  lemma CorePops(h: Heap, groups: Groups, d: nat)
    requires Core(h, groups) && d < DESC_CNT && |h.free| == DESC_CNT && h.free[d] != []
    ensures CanPop(h, d)
  {
    var b, i := FirstIsBlock(h, groups, d);
  }

  lemma OpenedPops(h: Heap, groups: Groups, d: nat, a: nat, base: int, n: nat)
    requires Core(h, groups) && d < DESC_CNT && |h.free| == DESC_CNT && h.free[d] == []
             && (forall g | g in groups :: groups[g] > 0)
    requires TakesFirst(groups, base, n, 1, Pages(a)) && base > 0
    ensures CanPop(Opened(h, d, a), d) && Opened(h, d, a).free[d][0] == Block(a, d, 0) && PageOf(Block(a, d, 0)) == a
  {
    hide Block, PageOf, TakesFirst, Core;
    RoomIsNew(groups, base, n, 1, a);
    OpenedCore(h, groups, groups[a := 1], d, a);
    FirstBlock(a, d);
    assert Opened(h, d, a).free[d] == Blocks(a, d, PerArena(d));
    CorePops(Opened(h, d, a), groups[a := 1], d);
  }
}
