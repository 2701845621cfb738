/** What a layer above the sector cache writes: a log of writes, and the array of sectors it makes of another. */
module WriteLog {
  import opened Sectors
  import Cache

  type Log = seq<Cache.Op>

  /** The log grew from L to L' by writes, which make the array D' of D. */
  ghost predicate Logged(d: seq<Sector>, l: Log, d': seq<Sector>, l': Log) {
    && l <= l'
    && Cache.AllAllowed(|d|, l'[|l|..]) && Cache.FlatFinal(d, l'[|l|..]) == d'
    && forall k | |l| <= k < |l'| :: l'[k].Write?
  }

  /** The log grew from L to L' by writes of whole sectors. */
  ghost predicate Covering(l: Log, l': Log) {
    l <= l' && forall k | |l| <= k < |l'| :: l'[k].Write? && |l'[k].buf| == SECTOR_SIZE
  }

  /** The log grew from L to L' by writes of whole sectors and, if K is not zero, of the first K bytes of SECTOR. */
  ghost predicate CoveringBut(l: Log, l': Log, sector: nat, k: nat) {
    && l <= l'
    && forall i | |l| <= i < |l'| ::
         && l'[i].Write?
         && (|l'[i].buf| == SECTOR_SIZE || (l'[i].sector == sector && l'[i].ofs == 0 && |l'[i].buf| == k > 0))
  }

  lemma CoveringStill(l: Log, l': Log, sector: nat, k: nat)
    ensures Covering(l, l') ==> CoveringBut(l, l', sector, k)
    ensures CoveringBut(l, l', sector, 0) ==> Covering(l, l')
  {
  }

  lemma LoggedNone(d: seq<Sector>, l: Log)
    ensures Logged(d, l, d, l) && Covering(l, l)
  {
  }

  lemma LoggedOne(d: seq<Sector>, l: Log, sector: nat, ofs: nat, buf: seq<Byte>)
    requires sector < |d| && ofs + |buf| <= SECTOR_SIZE
    ensures var l' := l + [Cache.Write(sector, ofs, buf)];
            && Logged(d, l, d[sector := Overlay(d[sector], ofs, buf)], l')
            && (|buf| == SECTOR_SIZE ==> Covering(l, l'))
            && (ofs == 0 && |buf| > 0 ==> CoveringBut(l, l', sector, |buf|))
  {
    var op := Cache.Write(sector, ofs, buf);
    assert (l + [op])[|l|..] == [op];
    assert [op][1..] == [];
  }

  lemma {:induction false} FinalSplit(d: seq<Sector>, a: Log, b: Log)
    requires Cache.AllAllowed(|d|, a) && Cache.AllAllowed(|d|, b)
    ensures Cache.AllAllowed(|d|, a + b)
    ensures Cache.FlatFinal(d, a + b) == Cache.FlatFinal(Cache.FlatFinal(d, a), b)
    decreases |a|
  {
    hide Cache.Allowed, Cache.FlatApply;
    if a == [] {
      assert a + b == b;
    } else {
      assert (a + b)[0] == a[0] && (a + b)[1..] == a[1..] + b;
      FinalSplit(Cache.FlatApply(d, a[0]), a[1..], b);
    }
  }

  lemma LoggedThen(d: seq<Sector>, l: Log, d1: seq<Sector>, l1: Log, d2: seq<Sector>, l2: Log)
    requires Logged(d, l, d1, l1) && Logged(d1, l1, d2, l2)
    ensures Logged(d, l, d2, l2) && |d2| == |d|
    ensures Covering(l, l1) && Covering(l1, l2) ==> Covering(l, l2)
    ensures forall s: nat, k: nat | CoveringBut(l, l1, s, k) && CoveringBut(l1, l2, s, k) :: CoveringBut(l, l2, s, k)
  {
    hide Cache.AllAllowed, Cache.FlatFinal;
    var a, b := l1[|l|..], l2[|l1|..];
    assert l2[|l|..] == a + b;
    FinalSplit(d, a, b);
  }

  /** The log grew by writes that make D' of D, all of them whole but those of the first T.1 bytes of sector T.0. */
  ghost predicate Tidy(d: seq<Sector>, l: Log, d': seq<Sector>, l': Log, t: (nat, nat)) {
    Logged(d, l, d', l') && CoveringBut(l, l', t.0, t.1)
  }

  lemma TidyNone(d: seq<Sector>, l: Log, t: (nat, nat))
    ensures Tidy(d, l, d, l, t)
  {
    LoggedNone(d, l);
  }

  lemma TidyWhole(d: seq<Sector>, l: Log, d': seq<Sector>, l': Log, t: (nat, nat))
    requires Logged(d, l, d', l') && Covering(l, l')
    ensures Tidy(d, l, d', l', t)
  {
    CoveringStill(l, l', t.0, t.1);
  }

  lemma TidyIsLogged(d: seq<Sector>, l: Log, d': seq<Sector>, l': Log, t: (nat, nat))
    requires Tidy(d, l, d', l', t)
    ensures Logged(d, l, d', l')
  {
  }

  /** Without exceptions all writes are whole, and so within any exception. */
  lemma TidyLoose(d: seq<Sector>, l: Log, d': seq<Sector>, l': Log, t: (nat, nat))
    requires Tidy(d, l, d', l', (0, 0))
    ensures Tidy(d, l, d', l', t)
  {
    CoveringStill(l, l', 0, 0);
    TidyWhole(d, l, d', l', t);
  }

  lemma TidyThen(d: seq<Sector>, l: Log, d1: seq<Sector>, l1: Log, d2: seq<Sector>, l2: Log, t: (nat, nat))
    requires Tidy(d, l, d1, l1, t) && Tidy(d1, l1, d2, l2, t)
    ensures Tidy(d, l, d2, l2, t)
  {
    hide Logged, CoveringBut;
    LoggedThen(d, l, d1, l1, d2, l2);
  }
}
