/** Files over the sector cache: the writes that the inode layer logs, replayed on the cache. */
module Storage {
  import opened Common
  import opened Sectors
  import opened WriteLog
  import Cache
  import FreeMap
  import Inode

  /** The writes among the operations of a trace. */
  function WritesOf(trace: Log): Log {
    if trace == [] then [] else (if trace[0].Write? then [trace[0]] else []) + WritesOf(trace[1..])
  }

  lemma {:induction false} WritesDecide(d: seq<Sector>, trace: Log)
    requires Cache.AllAllowed(|d|, trace)
    ensures Cache.AllAllowed(|d|, WritesOf(trace)) && Cache.FlatFinal(d, WritesOf(trace)) == Cache.FlatFinal(d, trace)
    decreases |trace|
  {
    hide Cache.Allowed;
    if trace != [] {
      var d1 := Cache.FlatApply(d, trace[0]);
      WritesDecide(d1, trace[1..]);
      if trace[0].Write? {
        assert WritesOf(trace)[1..] == WritesOf(trace[1..]);
      } else {
        assert WritesOf(trace) == WritesOf(trace[1..]);
      }
    }
  }

  ghost predicate WholeSectors(trace: Log) {
    forall k | 0 <= k < |trace| :: trace[k].Write? ==> |trace[k].buf| == SECTOR_SIZE
  }

  lemma {:induction false} WritesWhole(trace: Log)
    requires WholeSectors(WritesOf(trace))
    ensures WholeSectors(trace)
  {
    if trace != [] {
      var rest := WritesOf(trace[1..]);
      assert trace[0].Write? ==> WritesOf(trace)[0] == trace[0] && WritesOf(trace)[1..] == rest;
      assert !trace[0].Write? ==> WritesOf(trace) == rest;
      WritesWhole(trace[1..]);
      assert forall k | 0 < k < |trace| :: trace[k] == trace[1..][k - 1];
    }
  }

  lemma {:induction false} WholeIsSafe(st: Cache.State, trace: Log)
    requires Cache.Ok(st) && Cache.AllAllowed(|st.disk|, trace) && WholeSectors(trace)
    ensures Cache.SafeRun(st, trace)
    decreases |trace|
  {
    hide Cache.Ok, Cache.Apply, Cache.Find, Cache.Allowed;
    if trace != [] {
      WholeIsSafe(Cache.Apply(st, trace[0]), trace[1..]);
    }
  }

  /** On the cache the trace reads what it should and leads to the array D', also on the disk if it ends in a flush. */
  ghost predicate Right(st: Cache.State, trace: Log, d': seq<Sector>)
    requires Cache.Ok(st)
  {
    && Cache.CleanRun(st, trace) && Cache.AllAllowed(|st.disk|, trace)
    && Cache.Outputs(st, trace) == Cache.FlatOutputs(Cache.Array(st), trace)
    && Cache.Array(Cache.Final(st, trace)) == d'
    && (trace != [] && trace[|trace| - 1].Flush? ==> Cache.Final(st, trace).disk == d')
  }

  /** The same but for the bytes of SECTOR from the K-th on, and for what is read of them. */
  ghost predicate RightBut(st: Cache.State, trace: Log, d': seq<Sector>, sector: nat, k: nat)
    requires Cache.Ok(st)
  {
    && Cache.AllAllowed(|st.disk|, trace)
    && Cache.SameBut(Cache.Array(Cache.Final(st, trace)), d', sector, k)
    && (forall i | 0 <= i < |trace| && Cache.Apart(trace[i], sector, k) ::
          Cache.Outputs(st, trace)[i] == Cache.FlatOutputs(Cache.Array(st), trace)[i])
    && (trace != [] && trace[|trace| - 1].Flush? ==> Cache.SameBut(Cache.Final(st, trace).disk, d', sector, k))
  }

  lemma {:induction false} WritesMild(trace: Log, sector: nat, k: nat)
    requires forall i | 0 <= i < |WritesOf(trace)| :: Cache.Mild(WritesOf(trace)[i], sector, k)
    ensures forall i | 0 <= i < |trace| :: Cache.Mild(trace[i], sector, k)
  {
    hide Cache.Mild;
    if trace != [] {
      var rest := WritesOf(trace[1..]);
      MildOther(trace[0], sector, k);
      assert trace[0].Write? ==> WritesOf(trace)[0] == trace[0] && WritesOf(trace)[1..] == rest;
      assert !trace[0].Write? ==> WritesOf(trace) == rest;
      WritesMild(trace[1..], sector, k);
      assert forall i | 0 < i < |trace| :: trace[i] == trace[1..][i - 1];
    }
  }

  lemma MildOther(op: Cache.Op, sector: nat, k: nat)
    ensures !op.Write? ==> Cache.Mild(op, sector, k)
  {
  }

  /** Any trace with the logged writes is right on any cache but for the rest of the sector that is written in part. */
  lemma ReplayRightBut(st: Cache.State, trace: Log, l: Log, d': seq<Sector>, l': Log, t: (nat, nat))
    requires Cache.Ok(st) && Tidy(Cache.Array(st), l, d', l', t) && WritesOf(trace) == l'[|l|..]
    requires Cache.AllAllowed(|st.disk|, trace)
    ensures RightBut(st, trace, d', t.0, t.1)
  {
    WritesMild(trace, t.0, t.1);
    hide Cache.Ok, Cache.AllAllowed, Cache.FlatFinal, Cache.FlatOutputs, Cache.Outputs, Cache.Final, Cache.Mild;
    hide Cache.Array, WritesOf;
    Cache.RunSameBut(st, Cache.Array(st), trace, t.0, t.1);
    WritesDecide(Cache.Array(st), trace);
  }

  /** Any trace with the logged writes, whatever it reads and whenever it flushes, is right on the cache if the writes
      are of whole sectors, or else if each of them hits or covers. */
  lemma ReplayRight(st: Cache.State, trace: Log, l: Log, d': seq<Sector>, l': Log)
    requires Cache.Ok(st) && Logged(Cache.Array(st), l, d', l') && WritesOf(trace) == l'[|l|..]
    requires Cache.AllAllowed(|st.disk|, trace) && (Covering(l, l') || Cache.SafeRun(st, trace))
    ensures Right(st, trace, d')
  {
    if Covering(l, l') {
      WritesWhole(trace);
      WholeIsSafe(st, trace);
    }
    hide *;
    ReplaySafe(st, trace, l, d', l');
  }

  lemma ReplaySafe(st: Cache.State, trace: Log, l: Log, d': seq<Sector>, l': Log)
    requires Cache.Ok(st) && Logged(Cache.Array(st), l, d', l') && WritesOf(trace) == l'[|l|..]
    requires Cache.AllAllowed(|st.disk|, trace) && Cache.SafeRun(st, trace)
    ensures Right(st, trace, d')
  {
    hide Cache.Ok, Cache.SafeRun, Cache.CleanRun, Cache.AllAllowed, Cache.FlatFinal, Cache.FlatOutputs, Cache.Outputs,
         WritesOf;
    Cache.SafeRunRefines(st, trace);
    WritesDecide(Cache.Array(st), trace);
  }

  /** The traces of a run that grew the log from L to L'. */
  ghost predicate Traces(sectors: nat, trace: Log, l: Log, l': Log) {
    l <= l' && WritesOf(trace) == l'[|l|..] && Cache.AllAllowed(sectors, trace)
  }

  /** What is known of the cache after every trace of an operation that grew the log from L to L' and led to the array
      D'.  If each write hits or covers, all is right.  If all writes are whole but those of the free map's last part
      (T.0, T.1), all is right but for the rest of that part's sector, and if it fills its sector, all is right. */
  ghost predicate Served(st: Cache.State, l: Log, d': seq<Sector>, l': Log, tidy: bool, t: (nat, nat))
    requires Cache.Ok(st)
  {
    forall trace | Traces(|st.disk|, trace, l, l') ::
      && (Cache.SafeRun(st, trace) || (tidy && t.1 == 0) ==> Right(st, trace, d'))
      && (tidy ==> RightBut(st, trace, d', t.0, t.1))
  }

  lemma TracesServed(st: Cache.State, l: Log, d': seq<Sector>, l': Log, tidy: bool, t: (nat, nat))
    requires Cache.Ok(st) && Logged(Cache.Array(st), l, d', l') && (tidy ==> Tidy(Cache.Array(st), l, d', l', t))
    ensures Served(st, l, d', l', tidy, t)
  {
    hide Cache.Ok, Cache.SafeRun, Logged, Covering, Right, RightBut, CoveringBut;
    CoveringStill(l, l', t.0, 0);
    forall trace | Traces(|st.disk|, trace, l, l')
      ensures Cache.SafeRun(st, trace) || (tidy && t.1 == 0) ==> Right(st, trace, d')
      ensures tidy ==> RightBut(st, trace, d', t.0, t.1)
    {
      assert Traces(|st.disk|, trace, l, l');
      if Cache.SafeRun(st, trace) || (tidy && t.1 == 0) {
        ReplayRight(st, trace, l, d', l');
      }
      if tidy {
        ReplayRightBut(st, trace, l, d', l', t);
      }
    }
  }

  /** A run of reads, writes and creations on a volume whose sectors are in the cache ST.  The files are as they should
      be, and the cache serves the run, as one of whole sectors if files and writes are. */
  method Run(vol: Inode.Volume, ops: seq<Inode.Op>, ghost st: Cache.State) returns (outs: seq<Inode.Out>)
    requires vol.Valid() && Inode.RunOk(Inode.Abstract(vol.Now()), ops)
    requires vol.mapOpen || forall i | 0 <= i < |ops| :: !ops[i].New?
    requires Cache.Ok(st) && Cache.Array(st) == vol.disk
    modifies vol
    ensures vol.Valid() && (Inode.Abstract(vol.Now()), outs) == Inode.RunFlat(old(Inode.Abstract(vol.Now())), ops)
    ensures vol.Tail() == old(vol.Tail())
    ensures Served(st, old(vol.log), vol.disk, vol.log,
                   old(Inode.WholeFiles(Inode.Abstract(vol.Now()))) && Inode.WholeOps(ops), vol.Tail())
  {
    hide Inode.Ok, Inode.ContentsOf, Inode.Abstract, Inode.RunOk, Inode.RunFlat, Inode.WholeFiles, Inode.MapTail;
    hide Inode.Saved, Inode.MapPlaced, Cache.Ok, Logged, Tidy, Served, Cache.Array;
    ghost var l, whole := vol.log, Inode.WholeFiles(Inode.Abstract(vol.Now())) && Inode.WholeOps(ops);
    outs := vol.Run(ops);
    TracesServed(st, l, vol.disk, vol.log, whole, vol.Tail());
  }

  /** Creating a file writes whole sectors only, but for the end of the free map, whatever the file's length. */
  method Create(vol: Inode.Volume, sector: SectorNo, length: nat, isDirectory: bool, ghost st: Cache.State)
    returns (success: bool)
    requires vol.Valid() && sector < |vol.freeMap| && vol.freeMap[sector] && sector !in vol.owner
             && sector !in vol.inodes
    requires length <= MAX_FILE || 3 + Inode.NewSectors(0, length) > FreeMap.CountFree(vol.freeMap)
    requires vol.mapOpen || FreeMap.CountFree(vol.freeMap) == 0
             || 3 + Inode.NewSectors(0, length) <= FreeMap.CountFree(vol.freeMap)
    requires Cache.Ok(st) && Cache.Array(st) == vol.disk
    modifies vol
    ensures vol.Valid() && Inode.RestSame(old(vol.Now()), vol.Now(), sector)
    ensures (success, vol.freeMap) == Inode.IdealInode(old(vol.freeMap), length)
    ensures success ==> sector in vol.inodes && vol.Contents(sector) == Zeros(length)
    ensures vol.Tail() == old(vol.Tail()) && Served(st, old(vol.log), vol.disk, vol.log, true, vol.Tail())
  {
    hide Inode.Ok, Inode.ContentsOf, Inode.RestSame, Inode.IdealInode, Inode.HeaderOf, Inode.MapTail, Inode.Saved;
    hide Inode.MapPlaced, Cache.Ok, Logged, Tidy, Served, FreeMap.CountFree, Inode.NewSectors, Cache.Array;
    ghost var l := vol.log;
    success := vol.Create(sector, length, isDirectory);
    TidyIsLogged(Cache.Array(st), l, vol.disk, vol.log, vol.Tail());
    TracesServed(st, l, vol.disk, vol.log, true, vol.Tail());
  }

  // The end of the free map.

  /** Writing BUF over the first bytes of SECTOR acts on the cache as it should. */
  ghost predicate WritesRight(st: Cache.State, sector: nat, buf: seq<Byte>)
    requires Cache.Ok(st) && sector < |st.disk| && |buf| <= SECTOR_SIZE
  {
    var op := Cache.Write(sector, 0, buf);
    Cache.Array(Cache.Apply(st, op)) == Cache.FlatApply(Cache.Array(st), op)
  }

  ghost predicate ZerosFrom(s: Sector, k: nat) {
    forall j | k <= j < SECTOR_SIZE :: s[j] == 0
  }

  lemma WritesRightIf(st: Cache.State, sector: nat, buf: seq<Byte>)
    requires Cache.Ok(st) && sector < |st.disk| && |buf| <= SECTOR_SIZE
    requires ZerosFrom(Cache.Array(st)[sector], |buf|)
    ensures WritesRight(st, sector, buf) <==> ZerosFrom(Cache.Left(st, sector), |buf|)
    ensures Cache.Find(st.slots, sector) < Cache.CACHE_SIZE ==> WritesRight(st, sector, buf)
  {
    var op := Cache.Write(sector, 0, buf);
    hide Cache.Ok, Cache.Apply, Cache.Left, Cache.Find, Cache.Array, Cache.FlatApply;
    Cache.StepExact(st, op);
    if Cache.Find(st.slots, sector) < Cache.CACHE_SIZE {
      Cache.HitOrCoverClean(st, op);
    }
  }

  /** The write of the end of the free map is right on a cache exactly if the rest of the slot it goes to is zero; a hit
      suffices. */
  lemma MapWriteExact(v: Inode.View, st: Cache.State, buf: seq<Byte>)
    requires Inode.Ok(v) && Inode.MapPlaced(v) && Cache.Ok(st) && Cache.Array(st) == v.disk
    requires |buf| == Inode.MapTail(v, true).1 > 0
    ensures var s := Inode.MapTail(v, true).0;
            && s < |st.disk|
            && (WritesRight(st, s, buf) <==> ZerosFrom(Cache.Left(st, s), |buf|))
            && (Cache.Find(st.slots, s) < Cache.CACHE_SIZE ==> WritesRight(st, s, buf))
  {
    hide Inode.Ok, Inode.MapPlaced, Inode.MapTail, Cache.Ok, Cache.Left, Cache.Find, Cache.Array;
    hide WritesRight, ZerosFrom;
    TailZeros(v);
    WritesRightIf(st, Inode.MapTail(v, true).0, buf);
  }

  lemma TailZeros(v: Inode.View)
    requires Inode.Ok(v) && Inode.MapPlaced(v) && Inode.MapTail(v, true).1 > 0
    ensures var (s, k) := Inode.MapTail(v, true); s < |v.disk| && ZerosFrom(v.disk[s], k)
  {
    var (s, k) := Inode.MapTail(v, true);
    var d, sh := v.inodes[0], v.shape[0];
    assert Inode.FileOk(v.disk, v.owner, 0, d, sh);
    var at := SECTOR_SIZE * (d.length / SECTOR_SIZE);
    forall j | k <= j < SECTOR_SIZE
      ensures v.disk[s][j] == 0
    {
      assert (at + j) / SECTOR_SIZE == d.length / SECTOR_SIZE && (at + j) % SECTOR_SIZE == j;
      assert Inode.ByteAt(v.disk, sh.secs, at + j) == v.disk[s][j];
    }
  }

  /** An empty cache into which 64 other sectors Q are read before the end of the free map is written: it is right then
      exactly if the first of those sectors has only zeros from there on. */
  lemma MapWriteAfterReads(v: Inode.View, q: seq<nat>, buf: seq<Byte>)
    requires Inode.Ok(v) && Inode.MapPlaced(v) && |buf| == Inode.MapTail(v, true).1 > 0
    requires |q| == Cache.CACHE_SIZE && Distinct(q) && Inode.MapTail(v, true).0 !in q
    requires forall i | 0 <= i < |q| :: q[i] < |v.disk|
    ensures Cache.Ok(Cache.Initial(v.disk)) && Cache.AllAllowed(|v.disk|, Cache.ReadsOf(q))
    ensures var s, st := Inode.MapTail(v, true).0, Cache.Final(Cache.Initial(v.disk), Cache.ReadsOf(q));
            s < |st.disk| && (WritesRight(st, s, buf) <==> ZerosFrom(v.disk[q[0]], |buf|))
  {
    hide Inode.Ok, Inode.MapPlaced, Inode.MapTail, Cache.Ok, Cache.Left, Cache.Find, Cache.Array;
    hide WritesRight, ZerosFrom, Cache.Initial, Cache.Final, Cache.ReadsOf, Distinct;
    TailZeros(v);
    Cache.FullLeft(v.disk, q, Inode.MapTail(v, true).0);
    MapWriteExact(v, Cache.Final(Cache.Initial(v.disk), Cache.ReadsOf(q)), buf);
  }
}
