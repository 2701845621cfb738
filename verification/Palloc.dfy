/** The page allocator: two pools of pages, each with a bitmap of the pages in use.

    Pages are known by their page numbers. */
module Palloc {
  import opened Bitmap

  const PGSIZE := 4096

  /** Storage for a bitmap's header: its size and the address of its words. */
  const BITMAP_HEADER := 8

  /** What a request for pages gives: none, or the first page of a group. */
  datatype Pages = NoPages | Pages(first: nat)

  function DivRoundUp(x: nat, step: nat): (r: nat)
    requires step > 0
    ensures x <= r * step < x + step
  {
    (x + step - 1) / step
  }

  /** The pages taken up by the bitmap of a pool of N pages. */
  function BitmapPages(n: nat): nat {
    DivRoundUp(BITMAP_HEADER + 4 * WordsFor(n), PGSIZE)
  }

  /** A pool with at least one page has room for its bitmap, and an empty one has not. */
  lemma BitmapFits(n: nat)
    ensures BitmapPages(n) <= n <==> n > 0
    ensures n > 0 ==> BITMAP_HEADER + 4 * WordsFor(n - BitmapPages(n)) <= BitmapPages(n) * PGSIZE
  {
    if n > 0 {
      var m := BitmapPages(n);
      assert m * PGSIZE < BITMAP_HEADER + 4 * WordsFor(n) + PGSIZE;
    }
  }

  /** The live groups: the first page of each, and how many pages it has. */
  type Groups = map<int, int>

  ghost predicate Covered(live: Groups, p: int) {
    exists g :: g in live && g <= p < g + live[g]
  }

  ghost predicate Apart(live: Groups) {
    forall g, h | g in live && h in live && g < h :: g + live[g] <= h
  }

  /** The CNT pages from P on are in a pool of N pages at BASE. */
  ghost predicate Inside(p: int, cnt: int, base: int, n: nat) {
    base <= p && p + cnt <= base + n
  }

  /** They are there and none is live. */
  ghost predicate Room(live: Groups, base: int, n: nat, p: int, cnt: int) {
    Inside(p, cnt, base, n) && forall q | p <= q < p + cnt :: !Covered(live, q)
  }

  /** R is the first room for CNT pages in the pool, or null if there is none. */
  ghost predicate TakesFirst(live: Groups, base: int, n: nat, cnt: int, r: Pages) {
    match r
    case NoPages => forall p :: !Room(live, base, n, p, cnt)
    case Pages(first) => Room(live, base, n, first, cnt) && forall p | p < first :: !Room(live, base, n, p, cnt)
  }

  /** The bits set in the map of a pool at BASE are those of the pages in live groups. */
  ghost predicate Tracks(used: seq<bool>, base: int, live: Groups) {
    forall i | 0 <= i < |used| :: used[i] <==> Covered(live, base + i)
  }

  /** The pools do not overlap; the live groups are in the pools, do not overlap and are what the bitmaps say. */
  ghost predicate Sound(kernel: seq<bool>, kernelBase: int, user: seq<bool>, userBase: int, live: Groups) {
    && 0 < kernelBase && kernelBase + |kernel| <= userBase
    && Apart(live)
    && (forall g | g in live ::
        live[g] > 0 && (Inside(g, live[g], kernelBase, |kernel|) || Inside(g, live[g], userBase, |user|)))
    && Tracks(kernel, kernelBase, live)
    && Tracks(user, userBase, live)
  }

  /** A new group where no page was live is apart from the others. */
  lemma AddGroup(live: Groups, live': Groups, p: int, cnt: int)
    requires Apart(live) && cnt > 0 && forall g | g in live :: live[g] > 0
    requires forall q | p <= q < p + cnt :: !Covered(live, q)
    requires live' == live[p := cnt]
    ensures p !in live && Apart(live')
    ensures forall q :: Covered(live', q) <==> Covered(live, q) || p <= q < p + cnt
  {
    assert p in live ==> Covered(live, p);
    forall g | g in live
      ensures g + live[g] <= p || p + cnt <= g
    {
      assert g <= g < g + live[g] ==> Covered(live, g);
      assert g <= p < g + live[g] ==> Covered(live, p);
    }
    assert forall q | p <= q < p + cnt :: p in live' && Covered(live', q);
    assert forall g | g in live :: g in live' && live'[g] == live[g];
  }

  // Giving pages back: a whole group, a part of one, or several.

  /** The end of the group that page Q is in. */
  ghost function EndOf(live: Groups, q: int): (e: int)
    requires Covered(live, q)
    ensures q < e
  {
    var g :| g in live && g <= q < g + live[g];
    g + live[g]
  }

  lemma EndIs(live: Groups, q: int, g: int)
    requires Apart(live) && g in live && g <= q < g + live[g]
    ensures Covered(live, q) && EndOf(live, q) == g + live[g]
  {
    var h :| h in live && h <= q < h + live[h] && EndOf(live, q) == h + live[h];
    assert h == g;
  }

  /** What is left of the groups, and starts with page K, without the pages from FIRST up to END. */
  ghost predicate StartsPart(live: Groups, first: int, end: int, k: int) {
    (k in live && (k < first || end <= k)) || (k == end && Covered(live, end))
  }

  ghost function PartEnd(live: Groups, first: int, k: int): int
    requires Covered(live, k)
  {
    if k < first && first < EndOf(live, k) then first else EndOf(live, k)
  }

  ghost predicate Positive(live: Groups) {
    forall g | g in live :: live[g] > 0
  }

  lemma StartCovered(live: Groups, first: int, end: int, k: int)
    requires Positive(live) && StartsPart(live, first, end, k)
    ensures Covered(live, k)
  {
  }

  /** The groups without the CNT pages from FIRST on; a group cut in the middle becomes two. */
  ghost function Cut(live: Groups, first: int, cnt: nat): Groups
    requires Positive(live)
  {
    var end := first + cnt;
    map k | k in live.Keys + {end} && StartsPart(live, first, end, k) ::
      StartCovered(live, first, end, k); PartEnd(live, first, k) - k
  }

  lemma CutPart(live: Groups, first: int, cnt: nat, k: int)
    requires Apart(live) && Positive(live) && cnt > 0 && k in Cut(live, first, cnt)
    ensures exists g :: g in live && g <= k && k + Cut(live, first, cnt)[k] <= g + live[g]
    ensures Cut(live, first, cnt)[k] > 0
    ensures k < first ==> k in live && k + Cut(live, first, cnt)[k] <= first
    ensures k >= first ==> k >= first + cnt
  {
    StartCovered(live, first, first + cnt, k);
    var g :| g in live && g <= k < g + live[g];
    EndIs(live, k, g);
  }

  /** The part that starts with page K of group G. */
  lemma CutAt(live: Groups, first: int, cnt: nat, k: int, g: int)
    requires Apart(live) && Positive(live) && g in live && g <= k < g + live[g]
             && StartsPart(live, first, first + cnt, k)
    ensures k in Cut(live, first, cnt)
    ensures k + Cut(live, first, cnt)[k] == if k < first && first < g + live[g] then first else g + live[g]
  {
    EndIs(live, k, g);
    hide StartsPart;
  }

  lemma CutCovers(live: Groups, first: int, cnt: nat, q: int)
    requires Apart(live) && Positive(live) && cnt > 0
    ensures Covered(Cut(live, first, cnt), q) <==> Covered(live, q) && !(first <= q < first + cnt)
  {
    hide Cut, Apart, Positive;
    var cut, end := Cut(live, first, cnt), first + cnt;
    if Covered(cut, q) {
      var k :| k in cut && k <= q < k + cut[k];
      CutPart(live, first, cnt, k);
      var g :| g in live && g <= k && k + cut[k] <= g + live[g];
      assert g <= q < g + live[g];
    }
    if Covered(live, q) && !(first <= q < end) {
      var g :| g in live && g <= q < g + live[g];
      var k := if q >= end && g < end then end else g;
      assert StartsPart(live, first, end, k);
      CutAt(live, first, cnt, k, g);
      assert k <= q < k + cut[k];
    }
  }

  lemma CutApart(live: Groups, first: int, cnt: nat)
    requires Apart(live) && Positive(live) && cnt > 0
    ensures Apart(Cut(live, first, cnt)) && Positive(Cut(live, first, cnt))
  {
    hide Cut, StartsPart, PartEnd;
    var cut := Cut(live, first, cnt);
    forall k | k in cut
      ensures cut[k] > 0
    {
      CutPart(live, first, cnt, k);
    }
    forall k, l | k in cut && l in cut && k < l
      ensures k + cut[k] <= l
    {
      CutPart(live, first, cnt, k);
      CutPart(live, first, cnt, l);
      CutOrder(live, first, cnt, k, l);
    }
  }

  lemma CutOrder(live: Groups, first: int, cnt: nat, k: int, l: int)
    requires Apart(live) && Positive(live) && cnt > 0
    requires k in Cut(live, first, cnt) && l in Cut(live, first, cnt) && k < l
    ensures k + Cut(live, first, cnt)[k] <= l
  {
    var cut := Cut(live, first, cnt);
    CutPart(live, first, cnt, k);
    CutPart(live, first, cnt, l);
    var g :| g in live && g <= k && k + cut[k] <= g + live[g];
    if k >= first + cnt || l < first {
      assert l in live && g < l;
    }
  }

  lemma CutStarts(live: Groups, first: int, cnt: nat, k: int)
    requires Positive(live) && k in Cut(live, first, cnt)
    ensures StartsPart(live, first, first + cnt, k)
  {
    hide StartsPart;
  }

  /** Cutting out a whole group drops it. */
  lemma CutGroup(live: Groups, p: int)
    requires Apart(live) && Positive(live) && p in live
    ensures Cut(live, p, live[p]) == live - {p}
  {
    hide Cut;
    var cut, end := Cut(live, p, live[p]), p + live[p];
    forall k | k in live && k != p
      ensures k in cut && cut[k] == live[k]
    {
      assert StartsPart(live, p, end, k);
      CutAt(live, p, live[p], k, k);
    }
    forall k | k in cut
      ensures k in live && k != p
    {
      CutStarts(live, p, live[p], k);
    }
    assert cut == live - {p};
  }

  /** The bitmap's first fit is the first room among the pages. */
  lemma FitIsRoom(used: seq<bool>, base: int, live: Groups, i: int, cnt: nat)
    requires Tracks(used, base, live)
    ensures Fits(used, i, cnt, false) <==> Room(live, base, |used|, base + i, cnt)
  {
    if Fits(used, i, cnt, false) {
      forall q | base + i <= q < base + i + cnt
        ensures !Covered(live, q)
      {
        assert !used[q - base];
      }
    }
    if Room(live, base, |used|, base + i, cnt) {
      forall k | i <= k < i + cnt
        ensures !used[k]
      {
        assert !Covered(live, base + k);
      }
    }
  }

  lemma FirstRoom(used: seq<bool>, base: nat, live: Groups, cnt: nat, found: Found)
    requires Tracks(used, base, live) && FirstFit(used, 0, cnt, false, found)
    ensures TakesFirst(live, base, |used|, cnt, if found.At? then Pages(base + found.idx) else NoPages)
  {
    hide Tracks, Fits, Room;
    forall p | found.Missing? || p < base + found.idx
      ensures !Room(live, base, |used|, p, cnt)
    {
      FitIsRoom(used, base, live, p - base, cnt);
      if p < base {
        OutsideNoRoom(live, base, |used|, p, cnt);
      }
    }
    if found.At? {
      FitIsRoom(used, base, live, found.idx, cnt);
    }
  }

  lemma OutsideNoRoom(live: Groups, base: int, n: nat, p: int, cnt: int)
    requires p < base
    ensures !Room(live, base, n, p, cnt)
  {
  }

  /** Marking or clearing a group's pages in its pool keeps the bitmap in step. */
  lemma TracksFilled(used: seq<bool>, base: int, live: Groups, live': Groups, p: int, cnt: nat, v: bool)
    requires Tracks(used, base, live) && Inside(p, cnt, base, |used|)
    requires forall q | p <= q < p + cnt :: Covered(live', q) == v
    requires forall q | q < p || p + cnt <= q :: Covered(live', q) == Covered(live, q)
    ensures Tracks(Filled(used, p - base, cnt, v), base, live')
  {
  }

  lemma TracksElsewhere(used: seq<bool>, base: int, live: Groups, live': Groups, p: int, cnt: int)
    requires Tracks(used, base, live) && (p + cnt <= base || base + |used| <= p)
    requires forall q | q < p || p + cnt <= q :: Covered(live', q) == Covered(live, q)
    ensures Tracks(used, base, live')
  {
  }

  predicate PageFromPool(base: int, n: nat, page: int) {
    base <= page < base + n
  }

  class Allocator {
    const kernel: Bits
    const kernelBase: nat
    const user: Bits
    const userBase: nat
    ghost var live: Groups

    ghost predicate Valid()
      reads this, kernel.bits, user.bits
    {
      && kernel.Valid() && user.Valid() && kernel.bits != user.bits
      && Sound(kernel.Contents(), kernelBase, user.Contents(), userBase, live)
    }

    /** PAGES pages from START on are split between the pools, at most LIMIT of them to the user pool. */
    constructor (start: nat, pages: nat, limit: nat)
      requires start > 0 && pages >= 2 && limit > 0
      ensures Valid() && live == map[]
      ensures start < kernelBase && userBase + user.bitCnt == start + pages
      ensures fresh(kernel.bits) && fresh(user.bits)
    {
      hide Unpacked, Bit;
      var userPages := pages / 2;
      if userPages > limit {
        userPages := limit;
      }
      var kernelPages := pages - userPages;
      BitmapFits(kernelPages);
      BitmapFits(userPages);
      var kernelCnt, userCnt := kernelPages - BitmapPages(kernelPages), userPages - BitmapPages(userPages);
      var kernelBuf, userBuf := new bv32[WordsFor(kernelCnt)], new bv32[WordsFor(userCnt)];
      kernel := new Bits(kernelCnt, kernelBuf);
      kernelBase := start + BitmapPages(kernelPages);
      user := new Bits(userCnt, userBuf);
      userBase := start + kernelPages + BitmapPages(userPages);
      live := map[];
    }

    /** Gets CNT pages in a row, the first there are in the pool, or none if there are none. */
    method GetMultiple(fromUser: bool, cnt: nat) returns (r: Pages)
      requires Valid()
      modifies this, kernel.bits, user.bits
      ensures Valid()
      ensures cnt == 0 ==> r.NoPages?
      ensures r.NoPages? ==> live == old(live)
      ensures r.Pages? ==> r.first !in old(live) && live == old(live)[r.first := cnt]
      ensures cnt > 0 ==> if fromUser then TakesFirst(old(live), userBase, user.bitCnt, cnt, r)
                          else TakesFirst(old(live), kernelBase, kernel.bitCnt, cnt, r)
    {
      hide Unpacked, Bit, Sound, TakesFirst, FirstFit, Filled;
      if cnt == 0 {
        return NoPages;
      }
      if fromUser {
        ghost var used := user.Contents();
        var found := user.ScanAndFlip(0, cnt, false);
        UserTaken(kernel.Contents(), kernelBase, used, userBase, live, cnt, found);
        r := if found.At? then Pages(userBase + found.idx) else NoPages;
      } else {
        ghost var used := kernel.Contents();
        var found := kernel.ScanAndFlip(0, cnt, false);
        KernelTaken(used, kernelBase, user.Contents(), userBase, live, cnt, found);
        r := if found.At? then Pages(kernelBase + found.idx) else NoPages;
      }
      if r.Pages? {
        live := live[r.first := cnt];
      }
    }

    /** Gives back CNT pages in a row, all in use, to the pool they came from. */
    method FreeMultiple(pages: Pages, cnt: nat)
      requires Valid()
      requires pages.Pages? && cnt > 0 ==>
                 && (Inside(pages.first, cnt, kernelBase, kernel.bitCnt)
                     || Inside(pages.first, cnt, userBase, user.bitCnt))
                 && forall q | pages.first <= q < pages.first + cnt :: Covered(live, q)
      modifies this, kernel.bits, user.bits
      ensures Valid()
      ensures live == if pages.NoPages? || cnt == 0 then old(live) else Cut(old(live), pages.first, cnt)
      ensures pages.Pages? && Inside(pages.first, cnt, kernelBase, kernel.bitCnt) ==>
                && kernel.Contents() == Filled(old(kernel.Contents()), pages.first - kernelBase, cnt, false)
                && user.Contents() == old(user.Contents())
      ensures pages.Pages? && Inside(pages.first, cnt, userBase, user.bitCnt) ==>
                && user.Contents() == Filled(old(user.Contents()), pages.first - userBase, cnt, false)
                && kernel.Contents() == old(kernel.Contents())
    {
      hide Unpacked, Bit, Sound, Apart, Tracks, Covered, Filled, Cut, Positive;
      if pages.NoPages? || cnt == 0 {
        FilledNone(kernel.Contents(), user.Contents());
        return;
      }
      var first := pages.first;
      PoolOf(kernel.Contents(), kernelBase, user.Contents(), userBase, live, first, cnt);
      SoundCut(kernel.Contents(), kernelBase, user.Contents(), userBase, live, first, cnt);
      live := Cut(live, first, cnt);
      if PageFromPool(kernelBase, kernel.bitCnt, first) {
        kernel.SetMultiple(first - kernelBase, cnt, false);
      } else if PageFromPool(userBase, user.bitCnt, first) {
        user.SetMultiple(first - userBase, cnt, false);
      } else {
        assert false;
      }
    }
  }

  lemma FilledNone(kernel: seq<bool>, user: seq<bool>)
    ensures forall i | 0 <= i <= |kernel| :: Filled(kernel, i, 0, false) == kernel
    ensures forall i | 0 <= i <= |user| :: Filled(user, i, 0, false) == user
  {
  }

  lemma UserTaken(kernel: seq<bool>, kernelBase: nat, user: seq<bool>, userBase: nat, live: Groups, cnt: nat,
                  found: Found)
    requires cnt > 0 && Sound(kernel, kernelBase, user, userBase, live) && FirstFit(user, 0, cnt, false, found)
    ensures TakesFirst(live, userBase, |user|, cnt, if found.At? then Pages(userBase + found.idx) else NoPages)
    ensures found.At? ==> var p := userBase + found.idx;
                          && p !in live && found.idx + cnt <= |user|
                          && Sound(kernel, kernelBase, Filled(user, found.idx, cnt, true), userBase, live[p := cnt])
  {
    hide Covered, Apart, Tracks, Room, Filled;
    FirstRoom(user, userBase, live, cnt, found);
    if found.At? {
      var p := userBase + found.idx;
      var live' := live[p := cnt];
      Added(live, live', userBase, |user|, p, cnt);
      TracksFilled(user, userBase, live, live', p, cnt, true);
      TracksElsewhere(kernel, kernelBase, live, live', p, cnt);
    }
  }

  lemma KernelTaken(kernel: seq<bool>, kernelBase: nat, user: seq<bool>, userBase: nat, live: Groups, cnt: nat,
                    found: Found)
    requires cnt > 0 && Sound(kernel, kernelBase, user, userBase, live) && FirstFit(kernel, 0, cnt, false, found)
    ensures TakesFirst(live, kernelBase, |kernel|, cnt, if found.At? then Pages(kernelBase + found.idx) else NoPages)
    ensures found.At? ==> var p := kernelBase + found.idx;
                          && p !in live && found.idx + cnt <= |kernel|
                          && Sound(Filled(kernel, found.idx, cnt, true), kernelBase, user, userBase, live[p := cnt])
  {
    hide Covered, Apart, Tracks, Room, Filled;
    FirstRoom(kernel, kernelBase, live, cnt, found);
    if found.At? {
      var p := kernelBase + found.idx;
      var live' := live[p := cnt];
      Added(live, live', kernelBase, |kernel|, p, cnt);
      TracksFilled(kernel, kernelBase, live, live', p, cnt, true);
      TracksElsewhere(user, userBase, live, live', p, cnt);
    }
  }

  /** Pages in one pool are not in the other, and the first of them tells which it is. */
  lemma PoolOf(kernel: seq<bool>, kernelBase: int, user: seq<bool>, userBase: int, live: Groups, p: int, cnt: nat)
    requires Sound(kernel, kernelBase, user, userBase, live) && cnt > 0
    requires Inside(p, cnt, kernelBase, |kernel|) || Inside(p, cnt, userBase, |user|)
    ensures Positive(live)
    ensures Inside(p, cnt, kernelBase, |kernel|) <==> PageFromPool(kernelBase, |kernel|, p)
    ensures Inside(p, cnt, userBase, |user|) <==> PageFromPool(userBase, |user|, p)
    ensures PageFromPool(kernelBase, |kernel|, p) <==> !PageFromPool(userBase, |user|, p)
  {
    hide Tracks, Apart;
  }

  lemma SoundCut(kernel: seq<bool>, kernelBase: int, user: seq<bool>, userBase: int, live: Groups, p: int, cnt: nat)
    requires Sound(kernel, kernelBase, user, userBase, live) && cnt > 0 && Positive(live)
    ensures Inside(p, cnt, kernelBase, |kernel|) ==>
              Sound(Filled(kernel, p - kernelBase, cnt, false), kernelBase, user, userBase, Cut(live, p, cnt))
    ensures Inside(p, cnt, userBase, |user|) ==>
              Sound(kernel, kernelBase, Filled(user, p - userBase, cnt, false), userBase, Cut(live, p, cnt))
  {
    hide Covered, Apart, Tracks, Filled, Cut, Positive;
    var live' := Cut(live, p, cnt);
    CutApart(live, p, cnt);
    forall q
      ensures Covered(live', q) <==> Covered(live, q) && !(p <= q < p + cnt)
    {
      CutCovers(live, p, cnt, q);
    }
    CutInside(kernelBase, |kernel|, userBase, |user|, live, p, cnt);
    if Inside(p, cnt, kernelBase, |kernel|) {
      TracksFilled(kernel, kernelBase, live, live', p, cnt, false);
      TracksElsewhere(user, userBase, live, live', p, cnt);
    } else if Inside(p, cnt, userBase, |user|) {
      TracksFilled(user, userBase, live, live', p, cnt, false);
      TracksElsewhere(kernel, kernelBase, live, live', p, cnt);
    }
  }

  lemma CutInside(kernelBase: int, kernelCnt: nat, userBase: int, userCnt: nat, live: Groups, p: int, cnt: nat)
    requires Apart(live) && Positive(live) && cnt > 0
    requires forall g | g in live :: Inside(g, live[g], kernelBase, kernelCnt) || Inside(g, live[g], userBase, userCnt)
    ensures var cut := Cut(live, p, cnt);
            forall k | k in cut ::
              cut[k] > 0 && (Inside(k, cut[k], kernelBase, kernelCnt) || Inside(k, cut[k], userBase, userCnt))
  {
    hide Apart, Positive, Cut;
    var cut := Cut(live, p, cnt);
    forall k | k in cut
      ensures cut[k] > 0 && (Inside(k, cut[k], kernelBase, kernelCnt) || Inside(k, cut[k], userBase, userCnt))
    {
      CutPart(live, p, cnt, k);
      var g :| g in live && g <= k && k + cut[k] <= g + live[g];
    }
  }

  lemma Added(live: Groups, live': Groups, base: int, n: nat, p: int, cnt: int)
    requires Apart(live) && cnt > 0 && (forall g | g in live :: live[g] > 0) && Room(live, base, n, p, cnt)
    requires live' == live[p := cnt]
    ensures p !in live && Apart(live') && Inside(p, cnt, base, n)
    ensures forall q | p <= q < p + cnt :: Covered(live', q)
    ensures forall q | q < p || p + cnt <= q :: Covered(live', q) == Covered(live, q)
  {
    AddGroup(live, live', p, cnt);
  }
}
