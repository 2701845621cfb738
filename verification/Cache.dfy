/** The sector cache, one operation at a time: 64 slots, a queue of the sectors in them, and the disk below.

    The cache stands for a plain array of sectors: what is in a slot, or else what is on the disk. */
module Cache {
  import opened Common
  import opened Sectors

  const CACHE_SIZE := 64
  const EMPTY := -1

  datatype Slot = Slot(sector: int, access: bool, dirty: bool, data: Sector)

  /** SINCE tells when each sector in the queue was loaded, and NOW counts loads. */
  datatype State = State(slots: seq<Slot>, queue: seq<int>, disk: seq<Sector>, since: map<int, nat>, now: nat)

  /** The first slot that holds SECTOR, or |slots|. */
  function Find(slots: seq<Slot>, sector: int): (i: nat)
    ensures i <= |slots|
    ensures i < |slots| ==> slots[i].sector == sector
    ensures forall j | 0 <= j < i :: slots[j].sector != sector
  {
    if slots == [] || slots[0].sector == sector then 0 else Find(slots[1..], sector) + 1
  }

  ghost predicate Resident(slots: seq<Slot>, sector: int) {
    exists i :: 0 <= i < |slots| && slots[i].sector == sector
  }

  lemma FindResident(slots: seq<Slot>, sector: int)
    ensures Find(slots, sector) < |slots| <==> Resident(slots, sector)
  {
  }

  function InUse(slots: seq<Slot>): (n: nat)
    ensures n <= |slots|
  {
    if slots == [] then 0 else (if slots[0].sector == EMPTY then 0 else 1) + InUse(slots[1..])
  }

  lemma {:induction false} InUseUpdate(slots: seq<Slot>, i: nat, s: Slot)
    requires i < |slots|
    ensures InUse(slots[i := s]) == InUse(slots) - (if slots[i].sector == EMPTY then 0 else 1)
            + if s.sector == EMPTY then 0 else 1
  {
    if i == 0 {
      assert slots[i := s][1..] == slots[1..];
    } else {
      InUseUpdate(slots[1..], i - 1, s);
      assert slots[i := s][1..] == slots[1..][i - 1 := s];
    }
  }

  lemma {:induction false} InUseFull(slots: seq<Slot>, i: nat)
    requires i < |slots| && slots[i].sector == EMPTY
    ensures InUse(slots) < |slots|
  {
    if i > 0 {
      InUseFull(slots[1..], i - 1);
    }
  }

  /** No sector is in two slots, the sectors exist, an unchanged slot is as on disk, and an empty slot is unchanged. */
  ghost predicate SlotsOk(slots: seq<Slot>, disk: seq<Sector>) {
    && |slots| == CACHE_SIZE
    && (forall i | 0 <= i < |slots| :: slots[i].sector == EMPTY || 0 <= slots[i].sector < |disk|)
    && (forall i, j | 0 <= i < j < |slots| :: slots[i].sector == slots[j].sector ==> slots[i].sector == EMPTY)
    && (forall i | 0 <= i < |slots| ::
          slots[i].sector != EMPTY && !slots[i].dirty ==> slots[i].data == disk[slots[i].sector])
    && (forall i | 0 <= i < |slots| :: slots[i].sector == EMPTY ==> !slots[i].dirty && !slots[i].access)
  }

  /** The sectors of the queue were loaded one after the other. */
  ghost predicate Ordered(q: seq<int>, since: map<int, nat>, now: nat) {
    && (forall i | 0 <= i < |q| :: q[i] in since && since[q[i]] < now)
    && (forall i, j | 0 <= i < j < |q| :: since[q[i]] < since[q[j]])
  }

  /** The queue has exactly the sectors in the slots. */
  ghost predicate Lists(q: seq<int>, slots: seq<Slot>) {
    forall s :: s in q <==> s != EMPTY && Resident(slots, s)
  }

  ghost predicate QueueOk(st: State) {
    |st.queue| == InUse(st.slots) && Lists(st.queue, st.slots) && Ordered(st.queue, st.since, st.now)
  }

  ghost predicate Ok(st: State) {
    SlotsOk(st.slots, st.disk) && QueueOk(st)
  }

  /** The contents of sector S. */
  ghost function At(slots: seq<Slot>, disk: seq<Sector>, s: nat): Sector
    requires s < |disk|
  {
    var i := Find(slots, s);
    if i < |slots| then slots[i].data else disk[s]
  }

  /** The array of sectors that the cache and the disk stand for. */
  ghost function Array(st: State): (a: seq<Sector>)
    ensures |a| == |st.disk|
    ensures forall s | 0 <= s < |a| :: a[s] == At(st.slots, st.disk, s)
  {
    seq(|st.disk|, s requires 0 <= s < |st.disk| => At(st.slots, st.disk, s))
  }

  // Making room.

  /** The slot that a sector not in the cache goes to: the first empty one, or else that of the front of the queue. */
  ghost function Room(st: State): (i: nat)
    requires Ok(st)
    ensures i < CACHE_SIZE
    ensures st.slots[i].sector != EMPTY ==> st.queue != [] && st.slots[i].sector == st.queue[0]
  {
    var e := Find(st.slots, EMPTY);
    if e < CACHE_SIZE then e
    else
      NoneEmpty(st);
      Find(st.slots, st.queue[0])
  }

  lemma NoneEmpty(st: State)
    requires Ok(st) && Find(st.slots, EMPTY) == CACHE_SIZE
    ensures st.queue != [] && Find(st.slots, st.queue[0]) < CACHE_SIZE
  {
    assert Resident(st.slots, st.slots[0].sector);
    assert st.slots[0].sector in st.queue;
    assert st.queue[0] in st.queue;
    FindResident(st.slots, st.queue[0]);
  }

  /** SLOT's old contents are on the disk. */
  function Saved(disk: seq<Sector>, slot: Slot): (d: seq<Sector>)
    requires slot.dirty ==> 0 <= slot.sector < |disk|
    ensures |d| == |disk|
  {
    if slot.dirty then disk[slot.sector := slot.data] else disk
  }

  /** The victim was loaded before all other sectors in the cache. */
  lemma VictimOldest(st: State, s: int)
    requires Ok(st) && st.slots[Room(st)].sector != EMPTY && s in st.queue
    ensures var v := st.slots[Room(st)].sector; v in st.since && s in st.since && (s != v ==> st.since[v] < st.since[s])
  {
    var k :| 0 <= k < |st.queue| && st.queue[k] == s;
  }

  /** The state after SLOT, with a sector not yet in the cache, takes the place of the slot that there is room in. */
  ghost function Loaded(st: State, slot: Slot): State
    requires Ok(st)
  {
    var i := Room(st);
    State(st.slots[i := slot], (if st.slots[i].sector == EMPTY then st.queue else st.queue[1..]) + [slot.sector],
          Saved(st.disk, st.slots[i]), st.since[slot.sector := st.now], st.now + 1)
  }

  lemma FindUnique(slots: seq<Slot>, disk: seq<Sector>, i: nat)
    requires SlotsOk(slots, disk) && i < |slots| && slots[i].sector != EMPTY
    ensures Find(slots, slots[i].sector) == i
  {
  }

  lemma LoadedSlots(st: State, slot: Slot)
    requires Ok(st) && 0 <= slot.sector < |st.disk| && !Resident(st.slots, slot.sector)
    requires slot.dirty || slot.data == st.disk[slot.sector]
    ensures SlotsOk(Loaded(st, slot).slots, Loaded(st, slot).disk)
  {
    hide QueueOk, Find;
  }

  /** The other sectors keep their contents. */
  lemma LoadedAt(st: State, slot: Slot, t: nat)
    requires Ok(st) && 0 <= slot.sector < |st.disk| && !Resident(st.slots, slot.sector) && t < |st.disk|
    requires SlotsOk(Loaded(st, slot).slots, Loaded(st, slot).disk)
    ensures At(Loaded(st, slot).slots, Loaded(st, slot).disk, t)
            == if t == slot.sector then slot.data else At(st.slots, st.disk, t)
  {
    hide QueueOk;
    var st', i := Loaded(st, slot), Room(st);
    FindUnique(st'.slots, st'.disk, i);
    var k := Find(st.slots, t);
    if t == slot.sector {
    } else if k < CACHE_SIZE && k != i {
      assert st'.slots[k] == st.slots[k];
      FindUnique(st'.slots, st'.disk, k);
    } else {
      assert !Resident(st'.slots, t);
      FindResident(st'.slots, t);
    }
  }

  lemma LoadedMembers(st: State, slot: Slot)
    requires Ok(st) && 0 <= slot.sector < |st.disk| && !Resident(st.slots, slot.sector)
    ensures var st', v := Loaded(st, slot), st.slots[Room(st)].sector;
            && (forall s | s != EMPTY ::
                  Resident(st'.slots, s) <==> s == slot.sector || (s != v && Resident(st.slots, s)))
            && (forall s :: s in st'.queue <==> s == slot.sector || (s in st.queue && s != v))
  {
    var st', i := Loaded(st, slot), Room(st);
    var v := st.slots[i].sector;
    forall s | s != EMPTY
      ensures Resident(st'.slots, s) <==> s == slot.sector || (s != v && Resident(st.slots, s))
    {
      assert st'.slots[i].sector == slot.sector;
      if s != v && Resident(st.slots, s) {
        var k :| 0 <= k < |st.slots| && st.slots[k].sector == s;
        assert st'.slots[k].sector == s;
      }
    }
    if v != EMPTY {
      assert st.queue == [v] + st.queue[1..];
      assert forall s :: s in st.queue <==> s == v || s in st.queue[1..];
      assert v !in st.queue[1..] by {
        assert forall k | 0 <= k < |st.queue[1..]| :: st.queue[1..][k] == st.queue[k + 1];
      }
    } else {
      assert EMPTY !in st.queue;
    }
  }

  lemma OrderedAppend(q: seq<int>, since: map<int, nat>, now: nat, s: int)
    requires Ordered(q, since, now) && s !in q
    ensures Ordered(q + [s], since[s := now], now + 1)
  {
    assert forall i | 0 <= i < |q| :: q[i] in q && q[i] != s;
  }

  lemma OrderedTail(q: seq<int>, since: map<int, nat>, now: nat)
    requires Ordered(q, since, now) && q != []
    ensures Ordered(q[1..], since, now)
  {
  }

  lemma LoadedQueue(st: State, slot: Slot)
    requires Ok(st) && 0 <= slot.sector < |st.disk| && !Resident(st.slots, slot.sector)
    ensures QueueOk(Loaded(st, slot))
  {
    hide Find, Room, Ordered, InUse, Resident;
    var st', i := Loaded(st, slot), Room(st);
    LoadedMembers(st, slot);
    InUseUpdate(st.slots, i, slot);
    var empty := st.slots[i].sector == EMPTY;
    var q := if empty then st.queue else st.queue[1..];
    if !empty {
      OrderedTail(st.queue, st.since, st.now);
    }
    assert slot.sector !in st.queue;
    assert forall x | x in q :: x in st.queue;
    OrderedAppend(q, st.since, st.now, slot.sector);
    assert Lists(st'.queue, st'.slots);
  }

  lemma SameSectors(slots: seq<Slot>, slots': seq<Slot>)
    requires |slots| == |slots'| && forall k | 0 <= k < |slots| :: slots'[k].sector == slots[k].sector
    ensures forall s :: Resident(slots', s) <==> Resident(slots, s)
  {
    forall s
      ensures Resident(slots', s) <==> Resident(slots, s)
    {
      if Resident(slots, s) {
        var k :| 0 <= k < |slots| && slots[k].sector == s;
        assert slots'[k].sector == s;
      }
    }
  }

  lemma SlotChangedOk(st: State, i: nat, slot: Slot)
    requires Ok(st) && i < CACHE_SIZE && slot.sector == st.slots[i].sector != EMPTY
    requires slot.dirty || slot.data == st.disk[slot.sector]
    ensures Ok(st.(slots := st.slots[i := slot]))
  {
    hide Find, InUse, Ordered, Resident;
    InUseUpdate(st.slots, i, slot);
    SameSectors(st.slots, st.slots[i := slot]);
  }

  /** SLOT takes the place of slot I, which holds the same sector. */
  lemma SlotChanged(st: State, i: nat, slot: Slot)
    requires Ok(st) && i < CACHE_SIZE && slot.sector == st.slots[i].sector != EMPTY
    requires slot.dirty || slot.data == st.disk[slot.sector]
    ensures var st' := st.(slots := st.slots[i := slot]);
            Ok(st') && Array(st') == Array(st)[slot.sector := slot.data]
  {
    hide Find, QueueOk;
    var st' := st.(slots := st.slots[i := slot]);
    SlotChangedOk(st, i, slot);
    FindUnique(st'.slots, st'.disk, i);
    forall t | 0 <= t < |st.disk| && t != slot.sector
      ensures At(st'.slots, st'.disk, t) == At(st.slots, st.disk, t)
    {
      SameFind(st.slots, st'.slots, t);
    }
  }

  lemma {:induction false} SameFind(slots: seq<Slot>, slots': seq<Slot>, t: int)
    requires |slots| == |slots'| && forall k | 0 <= k < |slots| :: slots'[k].sector == slots[k].sector
    ensures Find(slots', t) == Find(slots, t)
  {
  }

  // Flushing.

  ghost function Cleaned(st: State, i: nat): State
    requires SlotsOk(st.slots, st.disk) && i < CACHE_SIZE && st.slots[i].sector != EMPTY
  {
    st.(disk := st.disk[st.slots[i].sector := st.slots[i].data], slots := st.slots[i := st.slots[i].(dirty := false)])
  }

  lemma CleanedSame(st: State, i: nat)
    requires Ok(st) && i < CACHE_SIZE && st.slots[i].sector != EMPTY
    ensures Ok(Cleaned(st, i)) && Array(Cleaned(st, i)) == Array(st)
  {
    hide Find, InUse, Ordered, Resident;
    var st' := Cleaned(st, i);
    InUseUpdate(st.slots, i, st'.slots[i]);
    SameSectors(st.slots, st'.slots);
    forall t | 0 <= t < |st.disk|
      ensures At(st'.slots, st'.disk, t) == At(st.slots, st.disk, t)
    {
      SameFind(st.slots, st'.slots, t);
      FindUnique(st.slots, st.disk, i);
    }
  }

  lemma AllClean(st: State)
    requires Ok(st) && forall i | 0 <= i < CACHE_SIZE :: !st.slots[i].dirty
    ensures st.disk == Array(st)
  {
    hide QueueOk;
  }

  // Reading and writing.

  /** A sector that is not in the cache is brought in from the disk. */
  ghost function Fetched(st: State, sector: nat): State
    requires Ok(st) && sector < |st.disk|
  {
    if Find(st.slots, sector) < CACHE_SIZE then st else Loaded(st, Slot(sector, false, false, st.disk[sector]))
  }

  lemma FetchedSame(st: State, sector: nat)
    requires Ok(st) && sector < |st.disk|
    ensures var st' := Fetched(st, sector);
            && Ok(st') && Array(st') == Array(st) && |st'.disk| == |st.disk|
            && Find(st'.slots, sector) < CACHE_SIZE && st'.slots[Find(st'.slots, sector)].data == Array(st)[sector]
  {
    hide SlotsOk, QueueOk, Find, Room;
    var st' := Fetched(st, sector);
    if Find(st.slots, sector) == |st.slots| {
      FetchMisses(st, sector);
    } else {
      HitLength(st);
    }
  }

  lemma HitLength(st: State)
    requires Ok(st)
    ensures |st.slots| == CACHE_SIZE
  {
    hide QueueOk;
  }

  lemma FetchMisses(st: State, sector: nat)
    requires Ok(st) && sector < |st.disk| && Find(st.slots, sector) == |st.slots|
    ensures var st' := Loaded(st, Slot(sector, false, false, st.disk[sector]));
            && |st.slots| == CACHE_SIZE
            && Ok(st') && Array(st') == Array(st) && |st'.disk| == |st.disk|
            && Find(st'.slots, sector) < CACHE_SIZE && st'.slots[Find(st'.slots, sector)].data == Array(st)[sector]
  {
    hide QueueOk, Room;
    var slot := Slot(sector, false, false, st.disk[sector]);
    var st' := Loaded(st, slot);
    FindResident(st.slots, sector);
    LoadedSlots(st, slot);
    LoadedQueue(st, slot);
    FindUnique(st'.slots, st'.disk, Room(st));
    forall t | 0 <= t < |st.disk|
      ensures At(st'.slots, st'.disk, t) == At(st.slots, st.disk, t)
    {
      LoadedAt(st, slot, t);
    }
  }

  /** What the bytes of SECTOR that a write leaves alone will be: the sector's own if it is in the cache, and else those
      that happen to be in the slot it is given. */
  ghost function Left(st: State, sector: nat): Sector
    requires Ok(st) && sector < |st.disk|
  {
    var i := Find(st.slots, sector);
    if i < CACHE_SIZE then st.slots[i].data else st.slots[Room(st)].data
  }

  ghost function Written(st: State, sector: nat, ofs: nat, buf: seq<Byte>): State
    requires Ok(st) && sector < |st.disk| && ofs + |buf| <= SECTOR_SIZE
  {
    var slot := Slot(sector, true, true, Overlay(Left(st, sector), ofs, buf));
    var i := Find(st.slots, sector);
    if i < CACHE_SIZE then st.(slots := st.slots[i := slot]) else Loaded(st, slot)
  }

  lemma WrittenIs(st: State, sector: nat, ofs: nat, buf: seq<Byte>)
    requires Ok(st) && sector < |st.disk| && ofs + |buf| <= SECTOR_SIZE
    ensures var st' := Written(st, sector, ofs, buf);
            Ok(st') && Array(st') == Array(st)[sector := Overlay(Left(st, sector), ofs, buf)]
  {
    hide QueueOk, Room, Overlay;
    var st' := Written(st, sector, ofs, buf);
    var slot := Slot(sector, true, true, Overlay(Left(st, sector), ofs, buf));
    var i := Find(st.slots, sector);
    if i < CACHE_SIZE {
      SlotChanged(st, i, slot);
    } else {
      FindResident(st.slots, sector);
      LoadedSlots(st, slot);
      LoadedQueue(st, slot);
      forall t | 0 <= t < |st.disk|
        ensures At(st'.slots, st'.disk, t) == if t == sector then slot.data else At(st.slots, st.disk, t)
      {
        LoadedAt(st, slot, t);
      }
    }
  }

  /** A write acts as on the array if and only if the bytes it leaves alone are right; they are if the sector is in the
      cache or the write covers all of it. */
  lemma WriteExact(st: State, sector: nat, ofs: nat, buf: seq<Byte>)
    requires Ok(st) && sector < |st.disk| && ofs + |buf| <= SECTOR_SIZE
    ensures var a := Array(st);
            && (Array(Written(st, sector, ofs, buf)) == a[sector := Overlay(a[sector], ofs, buf)] <==>
                forall k | 0 <= k < SECTOR_SIZE && !(ofs <= k < ofs + |buf|) :: Left(st, sector)[k] == a[sector][k])
            && (Find(st.slots, sector) < CACHE_SIZE || |buf| == SECTOR_SIZE ==>
                Array(Written(st, sector, ofs, buf)) == a[sector := Overlay(a[sector], ofs, buf)])
  {
    hide SlotsOk, QueueOk, Room, Written, Find;
    WrittenIs(st, sector, ofs, buf);
    HitLength(st);
    var a, left := Array(st), Left(st, sector);
    var x, y := Overlay(left, ofs, buf), Overlay(a[sector], ofs, buf);
    assert a[sector := x] == a[sector := y] <==> x == y by {
      assert a[sector := x][sector] == x && a[sector := y][sector] == y;
    }
    if x == y {
      forall k | 0 <= k < SECTOR_SIZE && !(ofs <= k < ofs + |buf|)
        ensures left[k] == a[sector][k]
      {
        assert x[k] == left[k] && y[k] == a[sector][k];
      }
    }
    if forall k | 0 <= k < SECTOR_SIZE && !(ofs <= k < ofs + |buf|) :: left[k] == a[sector][k] {
      assert x == y;
    }
    if Find(st.slots, sector) < CACHE_SIZE {
      assert left == a[sector];
    }
  }

  // Whole runs.

  datatype Op = Read(sector: nat, ofs: nat, size: nat) | Write(sector: nat, ofs: nat, buf: seq<Byte>) | Flush

  /** What the code demands of the caller. */
  predicate Allowed(sectors: nat, op: Op) {
    match op
    case Read(sector, ofs, size) => sector < sectors && ofs + size <= SECTOR_SIZE
    case Write(sector, ofs, buf) => sector < sectors && ofs + |buf| <= SECTOR_SIZE
    case Flush => true
  }

  ghost function FlushFrom(st: State, i: nat): (st': State)
    requires Ok(st) && i <= CACHE_SIZE
    ensures Ok(st') && Array(st') == Array(st) && st'.queue == st.queue
    ensures (forall k | 0 <= k < i :: !st.slots[k].dirty) ==> st'.disk == Array(st)
    decreases CACHE_SIZE - i
  {
    if i == CACHE_SIZE then
      if forall k | 0 <= k < i :: !st.slots[k].dirty then AllClean(st); st else st
    else if st.slots[i].sector != EMPTY && st.slots[i].dirty then
      CleanedSame(st, i);
      FlushFrom(Cleaned(st, i), i + 1)
    else FlushFrom(st, i + 1)
  }

  ghost function Accessed(st: State, sector: nat): State
    requires Ok(st) && Find(st.slots, sector) < |st.slots|
  {
    var i := Find(st.slots, sector);
    st.(slots := st.slots[i := st.slots[i].(access := true)])
  }

  lemma AccessedSame(st: State, sector: nat)
    requires Ok(st) && sector < |st.disk| && Find(st.slots, sector) < |st.slots|
    ensures Ok(Accessed(st, sector)) && Array(Accessed(st, sector)) == Array(st)
  {
    hide QueueOk, Find;
    var i := Find(st.slots, sector);
    SlotChanged(st, i, st.slots[i].(access := true));
    assert Array(st)[sector := st.slots[i].data] == Array(st);
  }

  ghost function Apply(st: State, op: Op): (st': State)
    requires Ok(st) && Allowed(|st.disk|, op)
    ensures Ok(st') && |st'.disk| == |st.disk|
  {
    hide Ok, Find, Loaded, Written, Cleaned;
    match op
    case Read(sector, _, _) =>
      FetchedSame(st, sector);
      AccessedSame(Fetched(st, sector), sector);
      Accessed(Fetched(st, sector), sector)
    case Write(sector, ofs, buf) =>
      WrittenIs(st, sector, ofs, buf);
      Written(st, sector, ofs, buf)
    case Flush => FlushFrom(st, 0)
  }

  /** The bytes a read gives. */
  ghost function Output(st: State, op: Op): seq<Byte>
    requires Ok(st) && Allowed(|st.disk|, op)
  {
    match op
    case Read(sector, ofs, size) =>
      FetchedSame(st, sector);
      var st' := Fetched(st, sector);
      st'.slots[Find(st'.slots, sector)].data[ofs..ofs + size]
    case _ => []
  }

  /** The same on a plain array of sectors. */
  function FlatApply(a: seq<Sector>, op: Op): (a': seq<Sector>)
    requires Allowed(|a|, op)
    ensures |a'| == |a|
  {
    match op
    case Write(sector, ofs, buf) => a[sector := Overlay(a[sector], ofs, buf)]
    case _ => a
  }

  function FlatOutput(a: seq<Sector>, op: Op): seq<Byte>
    requires Allowed(|a|, op)
  {
    match op
    case Read(sector, ofs, size) => a[sector][ofs..ofs + size]
    case _ => []
  }

  /** The bytes that a write leaves alone are right. */
  ghost predicate Clean(st: State, op: Op)
    requires Ok(st) && Allowed(|st.disk|, op)
  {
    match op
    case Write(sector, ofs, buf) =>
      forall k | 0 <= k < SECTOR_SIZE && !(ofs <= k < ofs + |buf|) :: Left(st, sector)[k] == Array(st)[sector][k]
    case _ => true
  }

  /** An operation gives what the array gives, and leads to what the array does exactly when it is clean. */
  lemma StepExact(st: State, op: Op)
    requires Ok(st) && Allowed(|st.disk|, op)
    ensures Output(st, op) == FlatOutput(Array(st), op)
    ensures Array(Apply(st, op)) == FlatApply(Array(st), op) <==> Clean(st, op)
    ensures op.Flush? ==> Apply(st, op).disk == Array(st)
  {
    hide Ok, Find, Loaded, Written, Cleaned, Array, Fetched, Accessed, FlushFrom, Left, Overlay;
    match op {
      case Read(sector, _, _) =>
        FetchedSame(st, sector);
        HitLength(Fetched(st, sector));
        AccessedSame(Fetched(st, sector), sector);
      case Write(sector, ofs, buf) =>
        WriteExact(st, sector, ofs, buf);
      case Flush =>
    }
  }

  /** What a caller can tell: the sector is in the cache, or all of it is written. */
  ghost predicate HitsOrCovers(st: State, op: Op)
    requires Ok(st) && Allowed(|st.disk|, op)
  {
    op.Write? ==> Find(st.slots, op.sector) < CACHE_SIZE || |op.buf| == SECTOR_SIZE
  }

  lemma HitOrCoverClean(st: State, op: Op)
    requires Ok(st) && Allowed(|st.disk|, op) && HitsOrCovers(st, op)
    ensures Clean(st, op)
  {
    hide SlotsOk, QueueOk, Room, Find;
    HitLength(st);
  }

  /** The same cache over a disk that has CONTENT in SECTOR. */
  function OnDisk(st: State, sector: nat, content: Sector): State
    requires sector < |st.disk|
  {
    st.(disk := st.disk[sector := content])
  }

  lemma OnDiskOk(st: State, sector: nat, content: Sector)
    requires Ok(st) && sector < |st.disk| && Find(st.slots, sector) == |st.slots|
    ensures Ok(OnDisk(st, sector, content)) && Array(OnDisk(st, sector, content))[sector] == content
    ensures Room(OnDisk(st, sector, content)) == Room(st)
  {
  }

  /** A sector that differs from what is left in a slot, but for the bytes written. */
  function Different(left: Sector, k: nat): Sector
    requires k < SECTOR_SIZE
  {
    left[k := if left[k] == 0 then 1 else 0]
  }

  /** A write is right whatever the sector holds on the disk if and only if it hits or covers. */
  lemma HitOrCoverExact(st: State, sector: nat, ofs: nat, buf: seq<Byte>)
    requires Ok(st) && Allowed(|st.disk|, Write(sector, ofs, buf))
    ensures HitsOrCovers(st, Write(sector, ofs, buf)) <==>
              forall content: Sector | Ok(OnDisk(st, sector, content)) ::
                  Clean(OnDisk(st, sector, content), Write(sector, ofs, buf))
  {
    hide SlotsOk, QueueOk, Room, Find, Array, Clean;
    var op := Write(sector, ofs, buf);
    HitLength(st);
    if HitsOrCovers(st, op) {
      forall content: Sector | Ok(OnDisk(st, sector, content))
        ensures Clean(OnDisk(st, sector, content), op)
      {
        HitOrCoverClean(OnDisk(st, sector, content), op);
      }
    } else {
      var k := if ofs > 0 then 0 else |buf|;
      var content := Different(st.slots[Room(st)].data, k);
      OnDiskOk(st, sector, content);
      MissUnclean(st, sector, ofs, buf, k);
    }
  }

  lemma MissUnclean(st: State, sector: nat, ofs: nat, buf: seq<Byte>, k: nat)
    requires Ok(st) && Allowed(|st.disk|, Write(sector, ofs, buf)) && Find(st.slots, sector) == |st.slots| == CACHE_SIZE
    requires k < SECTOR_SIZE && !(ofs <= k < ofs + |buf|)
    requires var content := Different(st.slots[Room(st)].data, k);
             && Ok(OnDisk(st, sector, content)) && Array(OnDisk(st, sector, content))[sector] == content
             && Room(OnDisk(st, sector, content)) == Room(st)
    ensures !Clean(OnDisk(st, sector, Different(st.slots[Room(st)].data, k)), Write(sector, ofs, buf))
  {
    hide SlotsOk, QueueOk, Room, Find, Array;
    var left := st.slots[Room(st)].data;
    var st' := OnDisk(st, sector, Different(left, k));
    assert Left(st', sector)[k] == left[k] != Array(st')[sector][k];
  }

  predicate AllAllowed(n: nat, ops: seq<Op>) {
    forall k | 0 <= k < |ops| :: Allowed(n, ops[k])
  }

  ghost predicate CleanRun(st: State, ops: seq<Op>)
    requires Ok(st)
    decreases |ops|
  {
    ops == [] || (Allowed(|st.disk|, ops[0]) && Clean(st, ops[0]) && CleanRun(Apply(st, ops[0]), ops[1..]))
  }

  ghost function Final(st: State, ops: seq<Op>): (st': State)
    requires Ok(st) && AllAllowed(|st.disk|, ops)
    ensures Ok(st') && |st'.disk| == |st.disk|
    decreases |ops|
  {
    if ops == [] then st else Final(Apply(st, ops[0]), ops[1..])
  }

  ghost function Outputs(st: State, ops: seq<Op>): (outs: seq<seq<Byte>>)
    requires Ok(st) && AllAllowed(|st.disk|, ops)
    ensures |outs| == |ops|
    decreases |ops|
  {
    if ops == [] then [] else [Output(st, ops[0])] + Outputs(Apply(st, ops[0]), ops[1..])
  }

  function FlatFinal(a: seq<Sector>, ops: seq<Op>): (a': seq<Sector>)
    requires AllAllowed(|a|, ops)
    ensures |a'| == |a|
    decreases |ops|
  {
    if ops == [] then a else FlatFinal(FlatApply(a, ops[0]), ops[1..])
  }

  function FlatOutputs(a: seq<Sector>, ops: seq<Op>): (outs: seq<seq<Byte>>)
    requires AllAllowed(|a|, ops)
    ensures |outs| == |ops|
    decreases |ops|
  {
    if ops == [] then [] else [FlatOutput(a, ops[0])] + FlatOutputs(FlatApply(a, ops[0]), ops[1..])
  }

  /** Over a whole run the cache reads like the array, ends as the array, and is on the disk after a flush. */
  lemma {:induction false} RunRefines(st: State, ops: seq<Op>)
    requires Ok(st) && CleanRun(st, ops)
    ensures AllAllowed(|st.disk|, ops)
    ensures Outputs(st, ops) == FlatOutputs(Array(st), ops)
    ensures Array(Final(st, ops)) == FlatFinal(Array(st), ops)
    ensures ops != [] && ops[|ops| - 1].Flush? ==> Final(st, ops).disk == FlatFinal(Array(st), ops)
    decreases |ops|
  {
    hide Ok, Apply, Output, FlatApply, FlatOutput, Clean, Allowed, Array;
    if ops != [] {
      var st', rest := Apply(st, ops[0]), ops[1..];
      StepExact(st, ops[0]);
      RunRefines(st', rest);
      assert forall k | 0 < k < |ops| :: ops[k] == rest[k - 1];
      if rest == [] && ops[0].Flush? {
        assert ops[|ops| - 1] == ops[0];
        FlushArray(st);
      }
    }
  }

  /** Every operation is allowed, and every write hits or covers. */
  ghost predicate SafeRun(st: State, ops: seq<Op>)
    requires Ok(st)
    decreases |ops|
  {
    ops == [] || (Allowed(|st.disk|, ops[0]) && HitsOrCovers(st, ops[0]) && SafeRun(Apply(st, ops[0]), ops[1..]))
  }

  lemma {:induction false} SafeIsClean(st: State, ops: seq<Op>)
    requires Ok(st) && SafeRun(st, ops)
    ensures CleanRun(st, ops)
    decreases |ops|
  {
    hide Ok, Apply, Clean, HitsOrCovers, Allowed;
    if ops != [] {
      HitOrCoverClean(st, ops[0]);
      SafeIsClean(Apply(st, ops[0]), ops[1..]);
    }
  }

  /** Over every run in which each write hits or covers, the cache is the array. */
  lemma SafeRunRefines(st: State, ops: seq<Op>)
    requires Ok(st) && SafeRun(st, ops)
    ensures CleanRun(st, ops) && AllAllowed(|st.disk|, ops)
    ensures Outputs(st, ops) == FlatOutputs(Array(st), ops)
    ensures Array(Final(st, ops)) == FlatFinal(Array(st), ops)
    ensures ops != [] && ops[|ops| - 1].Flush? ==> Final(st, ops).disk == FlatFinal(Array(st), ops)
  {
    hide Ok, CleanRun, SafeRun, AllAllowed, Outputs, FlatOutputs, Final, FlatFinal, Array;
    SafeIsClean(st, ops);
    RunRefines(st, ops);
  }

  // Runs in which one sector is only ever written in part.

  /** The arrays are the same but for the bytes of SECTOR from the K-th on. */
  ghost predicate SameBut(a: seq<Sector>, b: seq<Sector>, sector: nat, k: nat) {
    && |a| == |b|
    && (forall s | 0 <= s < |a| && s != sector :: a[s] == b[s])
    && (sector < |a| ==> forall j | 0 <= j < k && j < SECTOR_SIZE :: a[sector][j] == b[sector][j])
  }

  /** A write of a whole sector, or of the first K bytes of SECTOR. */
  predicate Mild(op: Op, sector: nat, k: nat) {
    op.Write? ==> |op.buf| == SECTOR_SIZE || (op.sector == sector && op.ofs == 0 && |op.buf| == k)
  }

  /** A read that does not reach the bytes of SECTOR from the K-th on. */
  predicate Apart(op: Op, sector: nat, k: nat) {
    op.Read? && (op.sector != sector || op.ofs + op.size <= k)
  }

  lemma WrittenSameBut(a: seq<Sector>, b: seq<Sector>, left: Sector, op: Op, sector: nat, k: nat)
    requires op.Write? && Allowed(|a|, op) && Mild(op, sector, k) && SameBut(a, b, sector, k)
    ensures SameBut(a[op.sector := Overlay(left, op.ofs, op.buf)], FlatApply(b, op), sector, k)
  {
  }

  lemma StepSameBut(st: State, b: seq<Sector>, op: Op, sector: nat, k: nat)
    requires Ok(st) && Allowed(|st.disk|, op) && Mild(op, sector, k) && SameBut(Array(st), b, sector, k)
    ensures SameBut(Array(Apply(st, op)), FlatApply(b, op), sector, k)
    ensures Apart(op, sector, k) ==> Output(st, op) == FlatOutput(b, op)
    ensures op.Flush? ==> Apply(st, op).disk == Array(Apply(st, op))
  {
    hide Ok, Find, Loaded, Written, Cleaned, Array, Fetched, Accessed, FlushFrom, Left, Overlay;
    StepExact(st, op);
    if op.Write? {
      WrittenIs(st, op.sector, op.ofs, op.buf);
      WrittenSameBut(Array(st), b, Left(st, op.sector), op, sector, k);
    }
  }

  /** Over every run of whole writes and of writes of the first K bytes of SECTOR, hit or miss, the cache is the array
      but for the other bytes of that sector. */
  lemma {:induction false} RunSameBut(st: State, b: seq<Sector>, ops: seq<Op>, sector: nat, k: nat)
    requires Ok(st) && AllAllowed(|st.disk|, ops) && SameBut(Array(st), b, sector, k)
    requires forall i | 0 <= i < |ops| :: Mild(ops[i], sector, k)
    ensures AllAllowed(|b|, ops) && SameBut(Array(Final(st, ops)), FlatFinal(b, ops), sector, k)
    ensures forall i | 0 <= i < |ops| && Apart(ops[i], sector, k) :: Outputs(st, ops)[i] == FlatOutputs(b, ops)[i]
    ensures ops != [] && ops[|ops| - 1].Flush? ==> Final(st, ops).disk == Array(Final(st, ops))
    decreases |ops|
  {
    hide Ok, Apply, Output, FlatApply, FlatOutput, Allowed, Array, Mild, Apart;
    if ops != [] {
      var rest := ops[1..];
      StepSameBut(st, b, ops[0], sector, k);
      RunSameBut(Apply(st, ops[0]), FlatApply(b, ops[0]), rest, sector, k);
      assert forall i | 0 < i < |ops| :: ops[i] == rest[i - 1];
    }
  }

  lemma FlushArray(st: State)
    requires Ok(st)
    ensures Allowed(|st.disk|, Flush) && Allowed(|Array(st)|, Flush) && FlatApply(Array(st), Flush) == Array(st)
  {
  }

  // From the start.

  function Blank(i: int): Slot {
    Slot(EMPTY, false, false, ZERO_SECTOR)
  }

  ghost function Initial(disk: seq<Sector>): State {
    State(seq(CACHE_SIZE, i => Blank(i)), [], disk, map[], 0)
  }

  lemma {:induction false} NoneInUse(slots: seq<Slot>)
    requires forall i | 0 <= i < |slots| :: slots[i].sector == EMPTY
    ensures InUse(slots) == 0
  {
    if slots != [] {
      NoneInUse(slots[1..]);
    }
  }

  lemma InitialOk(disk: seq<Sector>)
    ensures Ok(Initial(disk)) && Array(Initial(disk)) == disk
  {
    hide InUse, ZERO_SECTOR;
    var st := Initial(disk);
    NoneInUse(st.slots);
    assert forall s | s != EMPTY :: !Resident(st.slots, s);
  }

  function Ones(): Sector {
    seq(SECTOR_SIZE, _ => 1)
  }

  lemma InitialLeft(disk: seq<Sector>)
    requires disk != [] && Ok(Initial(disk))
    ensures Left(Initial(disk), 0) == ZERO_SECTOR
  {
    hide SlotsOk, QueueOk, ZERO_SECTOR;
    var st := Initial(disk);
    assert forall i | 0 <= i < CACHE_SIZE :: st.slots[i] == Blank(i);
  }

  /** One byte written to a sector that is not in the cache takes 511 others with it. */
  lemma PartialWriteFails()
    ensures var st, op := Initial([Ones()]), Write(0, 0, [7]);
            && Ok(st) && Allowed(|st.disk|, op) && Array(Apply(st, op)) != FlatApply(Array(st), op)
  {
    hide Apply, Ok, FlatApply, Initial, Left, Array;
    var disk := [Ones()];
    var st := Initial(disk);
    InitialOk(disk);
    InitialLeft(disk);
    StepExact(st, Write(0, 0, [7]));
    assert !Clean(st, Write(0, 0, [7])) by {
      assert Left(st, 0)[1] != Array(st)[0][1];
    }
  }

  // A cache filled by reading.

  function ReadsOf(q: seq<nat>): (ops: seq<Op>)
    ensures |ops| == |q|
  {
    seq(|q|, i requires 0 <= i < |q| => Read(q[i], 0, SECTOR_SIZE))
  }

  /** The first N slots hold the first N sectors of Q as they are on DISK, and the others are empty. */
  ghost predicate Holding(st: State, disk: seq<Sector>, q: seq<nat>, n: nat) {
    && Ok(st) && st.disk == disk && n <= |q| == CACHE_SIZE && |st.queue| == n
    && (forall i | 0 <= i < |q| :: q[i] < |disk|)
    && (forall i | 0 <= i < n :: st.queue[i] == q[i] == st.slots[i].sector && st.slots[i].data == disk[q[i]])
    && (forall i | n <= i < CACHE_SIZE :: st.slots[i].sector == EMPTY)
  }

  lemma HoldingFind(st: State, disk: seq<Sector>, q: seq<nat>, n: nat, s: nat)
    requires Holding(st, disk, q, n) && s !in q[..n]
    ensures Find(st.slots, s) == CACHE_SIZE && (n < CACHE_SIZE ==> Find(st.slots, EMPTY) == n)
    ensures n == CACHE_SIZE ==> Find(st.slots, EMPTY) == CACHE_SIZE && Find(st.slots, q[0]) == 0
  {
    hide QueueOk, SlotsOk;
    HitLength(st);
    var i, e := Find(st.slots, s), Find(st.slots, EMPTY);
    hide Find;
    assert forall j | 0 <= j < n :: q[..n][j] == q[j] != s;
    if n < CACHE_SIZE {
      assert st.slots[n].sector == EMPTY;
    } else {
      assert st.slots[0].sector == q[0];
    }
  }

  lemma HoldingNext(st: State, disk: seq<Sector>, q: seq<nat>, n: nat)
    requires Holding(st, disk, q, n) && n < CACHE_SIZE && Distinct(q)
    ensures Allowed(|st.disk|, Read(q[n], 0, SECTOR_SIZE))
    ensures Holding(Apply(st, Read(q[n], 0, SECTOR_SIZE)), disk, q, n + 1)
  {
    hide QueueOk, SlotsOk, Array;
    HoldingFind(st, disk, q, n, q[n]);
    FetchedSame(st, q[n]);
    var st1 := Fetched(st, q[n]);
    hide Find;
    HitLength(st);
    assert st1.slots[n].sector == q[n];
    assert forall i | 0 <= i < n :: st1.slots[i] == st.slots[i];
    assert Find(st1.slots, q[n]) == n;
  }

  lemma {:induction false} HoldingAll(st: State, disk: seq<Sector>, q: seq<nat>, n: nat)
    requires Holding(st, disk, q, n) && Distinct(q)
    ensures AllAllowed(|st.disk|, ReadsOf(q)[n..])
    ensures Holding(Final(st, ReadsOf(q)[n..]), disk, q, CACHE_SIZE)
    decreases CACHE_SIZE - n
  {
    hide Apply, Allowed, Holding;
    HoldingFacts(st, disk, q, n);
    var ops := ReadsOf(q)[n..];
    if n < CACHE_SIZE {
      HoldingNext(st, disk, q, n);
      assert ops[0] == Read(q[n], 0, SECTOR_SIZE) && ops[1..] == ReadsOf(q)[n + 1..];
      HoldingAll(Apply(st, ops[0]), disk, q, n + 1);
      assert forall i | 0 < i < |ops| :: ops[i] == ops[1..][i - 1];
    }
  }

  lemma HoldingFacts(st: State, disk: seq<Sector>, q: seq<nat>, n: nat)
    requires Holding(st, disk, q, n)
    ensures Ok(st) && n <= |q| == CACHE_SIZE && st.disk == disk
  {
  }

  /** After 64 other sectors were read into an empty cache, a write that misses gets the slot of the first of them. */
  lemma FullLeft(disk: seq<Sector>, q: seq<nat>, s: nat)
    requires |q| == CACHE_SIZE && Distinct(q) && (forall i | 0 <= i < |q| :: q[i] < |disk|) && s < |disk| && s !in q
    ensures Ok(Initial(disk)) && AllAllowed(|disk|, ReadsOf(q))
    ensures var st := Final(Initial(disk), ReadsOf(q));
            Ok(st) && st.disk == disk && Array(st) == disk && Left(st, s) == disk[q[0]]
  {
    InitialOk(disk);
    assert Holding(Initial(disk), disk, q, 0);
    HoldingAll(Initial(disk), disk, q, 0);
    assert ReadsOf(q)[0..] == ReadsOf(q);
    var st := Final(Initial(disk), ReadsOf(q));
    hide Initial, Final, ReadsOf;
    assert q[..CACHE_SIZE] == q;
    HoldingFind(st, disk, q, CACHE_SIZE, s);
    HoldingArray(st, disk, q);
    hide Find, QueueOk;
    HitLength(st);
  }

  lemma HoldingArray(st: State, disk: seq<Sector>, q: seq<nat>)
    requires Holding(st, disk, q, CACHE_SIZE)
    ensures Array(st) == disk
  {
    hide QueueOk;
    HitLength(st);
    forall t | 0 <= t < |disk|
      ensures At(st.slots, st.disk, t) == disk[t]
    {
      var i := Find(st.slots, t);
    }
  }

  class SectorCache {
    const slots: array<Slot>
    var queue: seq<int>
    var disk: seq<Sector>
    ghost var since: map<int, nat>
    ghost var now: nat

    ghost function Now(): State
      reads this, slots
    {
      State(slots[..], queue, disk, since, now)
    }

    constructor (disk: seq<Sector>)
      ensures Now() == Initial(disk) && fresh(slots)
    {
      slots := new Slot[CACHE_SIZE](i => Blank(i));
      queue, this.disk := [], disk;
      since, now := map[], 0;
    }

    method SectorToCache(sector: int) returns (i: nat)
      ensures i == Find(slots[..], sector)
    {
      i := 0;
      while i < slots.Length
        invariant i <= slots.Length && forall j | 0 <= j < i :: slots[j].sector != sector
      {
        if slots[i].sector == sector {
          return;
        }
        i := i + 1;
      }
    }

    /** Takes the oldest sector off the queue. */
    method LruEvict() returns (i: nat)
      requires Ok(Now()) && Find(slots[..], EMPTY) == CACHE_SIZE
      modifies this`queue
      ensures i == Room(old(Now())) && queue == old(queue)[1..]
    {
      hide SlotsOk, QueueOk, Find;
      NoneEmpty(Now());
      var sector := queue[0];
      queue := queue[1..];
      i := SectorToCache(sector);
    }

    method LruEnqueue(sector: int)
      requires |queue| < CACHE_SIZE
      modifies this`queue, this`since, this`now
      ensures queue == old(queue) + [sector] && since == old(since)[sector := old(now)] && now == old(now) + 1
    {
      queue := queue + [sector];
      since, now := since[sector := now], now + 1;
    }

    /** Gives a sector that is not in the cache a slot; a slot that will be written is not filled from the disk. */
    method GetFree(sector: nat, writing: bool) returns (i: nat)
      requires Ok(Now()) && sector < |disk| && Find(slots[..], sector) == |slots[..]|
      modifies this, slots
      ensures i == Room(old(Now()))
      ensures Now() == Loaded(old(Now()),
              Slot(sector, false, false, if writing then old(slots[..])[i].data else old(disk)[sector]))
    {
      hide QueueOk, Find;
      ghost var st := Now();
      QueueLength(st);
      i := SectorToCache(EMPTY);
      var slot;
      if i < CACHE_SIZE {
        slot := slots[i];
        LruEnqueue(sector);
        slots[i] := slots[i].(sector := sector);
      } else {
        i := LruEvict();
        slot := slots[i];
        LruEnqueue(sector);
        slots[i] := slots[i].(sector := sector);
        if slot.dirty {
          disk := disk[slot.sector := slot.data];
        }
        slots[i] := slots[i].(dirty := false, access := false);
      }
      if !writing {
        OtherSector(st, sector);
        slots[i] := slots[i].(data := disk[sector]);
      }
      assert slots[..] == st.slots[i := slots[i]];
    }

    method Read(sector: nat, ofs: nat, size: nat) returns (buf: seq<Byte>)
      requires Ok(Now()) && Allowed(|disk|, Op.Read(sector, ofs, size))
      modifies this, slots
      ensures Now() == Apply(old(Now()), Op.Read(sector, ofs, size))
              && buf == Output(old(Now()), Op.Read(sector, ofs, size))
    {
      hide SlotsOk, QueueOk, Find, Loaded, Room;
      ghost var st := Now();
      HitLength(st);
      FetchedSame(st, sector);
      HitLength(Fetched(st, sector));
      var i := SectorToCache(sector);
      if i == slots.Length {
        i := GetFree(sector, false);
        LoadedFind(st, Slot(sector, false, false, st.disk[sector]));
      }
      buf := slots[i].data[ofs..ofs + size];
      ghost var was := slots[..];
      slots[i] := slots[i].(access := true);
      assert slots[..] == was[i := was[i].(access := true)];
    }

    method Write(sector: nat, ofs: nat, buf: seq<Byte>)
      requires Ok(Now()) && Allowed(|disk|, Op.Write(sector, ofs, buf))
      modifies this, slots
      ensures Now() == Apply(old(Now()), Op.Write(sector, ofs, buf))
    {
      hide SlotsOk, QueueOk, Find, Room, Overlay;
      ghost var st := Now();
      HitLength(st);
      var i := SectorToCache(sector);
      if i == slots.Length {
        i := GetFree(sector, true);
      }
      ghost var was := slots[..];
      slots[i] := slots[i].(data := Overlay(slots[i].data, ofs, buf), access := true, dirty := true);
      assert slots[..] == was[i := slots[i]];
    }

    /** Writes out all changed slots. */
    method FlushCache()
      requires Ok(Now())
      modifies this, slots
      ensures Now() == Apply(old(Now()), Flush)
      ensures disk == Array(old(Now()))
    {
      hide SlotsOk, QueueOk, Find, Array;
      ghost var st := Now();
      HitLength(st);
      for i := 0 to CACHE_SIZE
        invariant slots.Length == CACHE_SIZE
        invariant Ok(Now()) && FlushFrom(Now(), i) == FlushFrom(st, 0)
      {
        if slots[i].sector != EMPTY {
          if slots[i].dirty {
            ghost var was := Now();
            CleanedFacts(was, i);
            disk := disk[slots[i].sector := slots[i].data];
            slots[i] := slots[i].(dirty := false);
            assert Now() == Cleaned(was, i);
          }
        }
      }
    }
  }

  lemma QueueLength(st: State)
    requires Ok(st)
    ensures Find(st.slots, EMPTY) < CACHE_SIZE ==> |st.queue| < CACHE_SIZE
    ensures |st.queue| <= CACHE_SIZE
  {
    var i := Find(st.slots, EMPTY);
    if i < CACHE_SIZE {
      InUseFull(st.slots, i);
    }
  }

  /** Writing out the victim does not touch the sector that takes its place. */
  lemma OtherSector(st: State, sector: nat)
    requires Ok(st) && sector < |st.disk| && Find(st.slots, sector) == |st.slots|
    ensures Saved(st.disk, st.slots[Room(st)])[sector] == st.disk[sector]
  {
  }

  lemma LoadedFind(st: State, slot: Slot)
    requires Ok(st) && 0 <= slot.sector < |st.disk| && Find(st.slots, slot.sector) == |st.slots|
    requires slot.dirty || slot.data == st.disk[slot.sector]
    ensures Find(Loaded(st, slot).slots, slot.sector) == Room(st)
  {
    hide QueueOk;
    FindResident(st.slots, slot.sector);
    LoadedSlots(st, slot);
    FindUnique(Loaded(st, slot).slots, Loaded(st, slot).disk, Room(st));
  }

  lemma CleanedFacts(st: State, i: nat)
    requires Ok(st) && i < CACHE_SIZE && st.slots[i].sector != EMPTY
    ensures 0 <= st.slots[i].sector < |st.disk| && Ok(Cleaned(st, i))
  {
    hide QueueOk, Find;
    CleanedSame(st, i);
  }
}
