/** Files as double-indirect inodes over a volume of sectors and a free map.

    A file's sectors are reached through its double-indirect table ("root"), whose entries name
    indirect tables, whose entries name data sectors.  The sectors are an array here; the writes to it are
    logged, so that they can be replayed on the sector cache. */
module Inode {
  import opened CDivision
  import opened Sectors
  import opened Common
  import opened FreeMap
  import opened WriteLog
  import Cache

  const FREE_MAP_SECTOR: SectorNo := 0
  const ROOT_DIR_SECTOR: SectorNo := 1

  /** The part of an inode the file operations use. */
  datatype InodeData = InodeData(length: nat, root: SectorNo, isDirectory: bool, denyWriteCnt: nat)

  /** The tables and the data sectors of a file, each in file order. */
  datatype Shape = Shape(tabs: seq<SectorNo>, secs: seq<SectorNo>)

  /** What a sector is used for: one slot of one file. */
  datatype Slot =
    | Header(f: SectorNo)
    | Root(f: SectorNo)
    | Tab(f: SectorNo, i: nat)
    | Data(f: SectorNo, k: nat)

  /** The direct and the indirect index of the sector holding byte POS. */
  function IndicesFromOffset(pos: int): (int, int) {
    var d := TruncDiv(pos, SECTOR_SIZE);
    (d % ENTRIES, d / ENTRIES)
  }

  /** Sectors a file of LENGTH bytes owns: creation always takes one. */
  function SectorsFor(length: nat): nat {
    if length == 0 then 1 else (length + SECTOR_SIZE - 1) / SECTOR_SIZE
  }

  function TablesFor(sectors: nat): nat {
    (sectors + ENTRIES - 1) / ENTRIES
  }

  /** The sectors an extension from LENGTH by CNT bytes asks for, computed as the code does it. */
  function NewSectors(length: nat, cnt: nat): int {
    var (dirF, indF) := IndicesFromOffset(length + cnt - 1);
    var (dir, ind) := IndicesFromOffset(length - 1);
    (indF - ind) * ENTRIES + (dirF - dir) + (indF - ind)
  }

  /** The index arithmetic asks for exactly the missing data sectors and the missing tables. */
  lemma NewSectorsExact(length: nat, cnt: nat)
    ensures NewSectors(length, cnt)
         == SectorsFor(length + cnt) - SectorsFor(length)
          + TablesFor(SectorsFor(length + cnt)) - TablesFor(SectorsFor(length))
    ensures IndicesFromOffset(length - 1).0 == (SectorsFor(length) - 1) % ENTRIES
    ensures IndicesFromOffset(length - 1).1 == TablesFor(SectorsFor(length)) - 1
    ensures SectorsFor(length) <= SectorsFor(length + cnt) && 0 <= NewSectors(length, cnt)
    ensures 0 <= IndicesFromOffset(length - 1).0 && 0 <= IndicesFromOffset(length - 1).1
  {
    LastIndex(length);
    LastIndex(length + cnt);
  }

  lemma LastIndex(length: nat)
    ensures TruncDiv(length - 1, SECTOR_SIZE) == SectorsFor(length) - 1
    ensures IndicesFromOffset(length - 1).1 == TablesFor(SectorsFor(length)) - 1
    ensures ENTRIES * IndicesFromOffset(length - 1).1 + IndicesFromOffset(length - 1).0 + 1 == SectorsFor(length)
  {
  }

  /** Byte P of the file whose data sectors are SECS. */
  function ByteAt(disk: seq<Sector>, secs: seq<SectorNo>, p: nat): Byte
    requires p < SECTOR_SIZE * |secs|
    requires forall k | 0 <= k < |secs| :: secs[k] < |disk|
  {
    disk[secs[p / SECTOR_SIZE]][p % SECTOR_SIZE]
  }

  ghost predicate InRange(disk: seq<Sector>, secs: seq<SectorNo>) {
    forall k | 0 <= k < |secs| :: 0 < secs[k] < |disk|
  }

  /** The first N tables on the disk hold the first N rows of SECS. */
  ghost predicate RowsOnDisk(disk: seq<Sector>, tabs: seq<SectorNo>, secs: seq<SectorNo>, n: nat)
    requires InRange(disk, tabs) && n <= |tabs|
  {
    forall i | 0 <= i < n :: Decode(disk[tabs[i]]) == Row(secs, i)
  }

  /** The sectors are on the disk, and there are enough tables for them. */
  ghost predicate Placed(disk: seq<Sector>, root: SectorNo, sh: Shape) {
    && 0 < root < |disk|
    && InRange(disk, sh.tabs)
    && InRange(disk, sh.secs)
    && 1 <= |sh.secs| <= ENTRIES * ENTRIES
    && |sh.tabs| == TablesFor(|sh.secs|)
  }

  /** Following the tables from ROOT leads to exactly the tables and the sectors of SH. */
  ghost predicate Mapped(disk: seq<Sector>, root: SectorNo, sh: Shape) {
    && Placed(disk, root, sh)
    && Decode(disk[root]) == Row(sh.tabs, 0)
    && RowsOnDisk(disk, sh.tabs, sh.secs, |sh.tabs|)
  }

  /** Every sector of the file is in use for that one slot of that one file. */
  ghost predicate Owned(owner: map<SectorNo, Slot>, f: SectorNo, root: SectorNo, sh: Shape) {
    && f in owner && owner[f] == Header(f)
    && root in owner && owner[root] == Root(f)
    && (forall i | 0 <= i < |sh.tabs| :: sh.tabs[i] in owner && owner[sh.tabs[i]] == Tab(f, i))
    && (forall k | 0 <= k < |sh.secs| :: sh.secs[k] in owner && owner[sh.secs[k]] == Data(f, k))
  }

  /** Right number of sectors for the length, and zeros after the last byte. */
  ghost predicate Sized(disk: seq<Sector>, length: nat, sh: Shape)
    requires InRange(disk, sh.secs)
  {
    && length <= MAX_FILE
    && |sh.secs| == SectorsFor(length)
    && forall p | length <= p < SECTOR_SIZE * |sh.secs| :: ByteAt(disk, sh.secs, p) == 0
  }

  ghost predicate FileOk(disk: seq<Sector>, owner: map<SectorNo, Slot>, f: SectorNo, d: InodeData, sh: Shape) {
    && Mapped(disk, d.root, sh)
    && Owned(owner, f, d.root, sh)
    && Sized(disk, d.length, sh)
  }

  /** Every sector in use is marked, and the two system sectors always are. */
  ghost predicate MapsOk(disk: seq<Sector>, freeMap: seq<bool>, owner: map<SectorNo, Slot>) {
    && |disk| == |freeMap| < 0x1_0000_0000
    && 2 <= |freeMap| && freeMap[FREE_MAP_SECTOR] && freeMap[ROOT_DIR_SECTOR]
    && forall s | s in owner :: s < |disk| && freeMap[s]
  }

  /** The file as one flat byte sequence. */
  ghost function Flat(disk: seq<Sector>, length: nat, secs: seq<SectorNo>): (c: seq<Byte>)
    requires InRange(disk, secs)
    requires length <= SECTOR_SIZE * |secs|
    ensures |c| == length
  {
    seq(length, p requires 0 <= p < length => ByteAt(disk, secs, p))
  }

  ghost function BytesOf(disk: seq<Sector>, owner: map<SectorNo, Slot>, f: SectorNo, d: InodeData,
                         sh: Shape): (c: seq<Byte>)
    requires FileOk(disk, owner, f, d, sh)
    ensures |c| == d.length
  {
    Flat(disk, d.length, sh.secs)
  }

  /** All of a volume: sectors, free map and inodes, with the shape of each file and the slot of each
      sector in use. */
  datatype View = View(disk: seq<Sector>, freeMap: seq<bool>, inodes: map<SectorNo, InodeData>,
                       shape: map<SectorNo, Shape>, owner: map<SectorNo, Slot>)

  ghost predicate Ok(v: View) {
    && MapsOk(v.disk, v.freeMap, v.owner)
    && v.shape.Keys == v.inodes.Keys
    && forall f | f in v.inodes :: FileOk(v.disk, v.owner, f, v.inodes[f], v.shape[f])
  }

  ghost function ContentsOf(v: View, f: SectorNo): (c: seq<Byte>)
    requires Ok(v) && f in v.inodes
    ensures |c| == v.inodes[f].length
  {
    BytesOf(v.disk, v.owner, f, v.inodes[f], v.shape[f])
  }

  /** Files other than F are exactly as before. */
  ghost predicate OthersSame(v: View, v': View, f: SectorNo)
    requires Ok(v) && Ok(v')
  {
    forall g | g in v.inodes && g != f ::
      && g in v'.inodes && v'.inodes[g] == v.inodes[g] && v'.shape[g] == v.shape[g]
      && ContentsOf(v', g) == ContentsOf(v, g)
  }

  /** Files other than F and the free map's own are exactly as before, and that file keeps its inode and its sectors. */
  ghost predicate RestSame(v: View, v': View, f: SectorNo)
    requires Ok(v) && Ok(v')
  {
    forall g | g in v.inodes && g != f ::
      && g in v'.inodes && v'.inodes[g] == v.inodes[g] && v'.shape[g] == v.shape[g]
      && (g != FREE_MAP_SECTOR ==> ContentsOf(v', g) == ContentsOf(v, g))
  }

  /** There is a file for the free map, of just the size of the map, and nobody denies writes to it. */
  ghost predicate MapPlaced(v: View) {
    && FREE_MAP_SECTOR in v.inodes && v.inodes[FREE_MAP_SECTOR].denyWriteCnt == 0
    && v.inodes[FREE_MAP_SECTOR].length == MapBytes(|v.freeMap|)
  }

  /** That file holds the map. */
  ghost predicate Saved(v: View)
    requires Ok(v)
  {
    MapPlaced(v) && Unpacked(ContentsOf(v, FREE_MAP_SECTOR), |v.freeMap|) == v.freeMap
  }

  /** The sector with the last part of a file, if it does not fill that sector, and the size of that part. */
  ghost function TailOf(length: nat, sh: Shape): (t: (nat, nat))
    ensures t.1 < SECTOR_SIZE
  {
    var k := length / SECTOR_SIZE;
    if k < |sh.secs| then (sh.secs[k], length % SECTOR_SIZE) else (0, 0)
  }

  /** The same for the free map's file, if it is open. */
  ghost function MapTail(v: View, mapOpen: bool): (t: (nat, nat))
    ensures t.1 < SECTOR_SIZE
  {
    if mapOpen && FREE_MAP_SECTOR in v.inodes && FREE_MAP_SECTOR in v.shape
    then TailOf(v.inodes[FREE_MAP_SECTOR].length, v.shape[FREE_MAP_SECTOR])
    else (0, 0)
  }

  /** The state of an extension half way: all tables but the last are on the disk, the root and the
      last table are the buffers IND and DIR. */
  ghost predicate Filling(disk: seq<Sector>, owner: map<SectorNo, Slot>, f: SectorNo, root: SectorNo, sh: Shape,
                          ind: Table, dir: Table)
  {
    && Placed(disk, root, sh)
    && Owned(owner, f, root, sh)
    && ind == Row(sh.tabs, 0)
    && dir == Row(sh.secs, |sh.tabs| - 1)
    && RowsOnDisk(disk, sh.tabs, sh.secs, |sh.tabs| - 1)
  }

  lemma RowsKept(disk: seq<Sector>, tabs: seq<SectorNo>, secs: seq<SectorNo>, n: nat,
                 disk': seq<Sector>, tabs': seq<SectorNo>, x: SectorNo)
    requires InRange(disk, tabs) && n <= |tabs| && tabs <= tabs' && InRange(disk', tabs')
    requires RowsOnDisk(disk, tabs, secs, n) && ENTRIES * n <= |secs|
    requires forall i | 0 <= i < n :: disk'[tabs[i]] == disk[tabs[i]]
    ensures RowsOnDisk(disk', tabs', secs + [x], n)
  {
    RowAppend(secs, x);
    forall i | 0 <= i < n
      ensures Decode(disk'[tabs'[i]]) == Row(secs + [x], i)
    {
      assert ENTRIES * (i + 1) <= |secs|;
      assert tabs'[i] == tabs[i];
    }
  }

  lemma FillData(disk: seq<Sector>, owner: map<SectorNo, Slot>, f: SectorNo, root: SectorNo, sh: Shape,
                 ind: Table, dir: Table, x: SectorNo)
    requires Filling(disk, owner, f, root, sh, ind, dir)
    requires |sh.secs| % ENTRIES != 0 && |sh.secs| < ENTRIES * ENTRIES
    requires 0 < x < |disk| && x !in owner
    ensures Filling(disk[x := ZERO_SECTOR], owner[x := Data(f, |sh.secs|)], f, root,
                    Shape(sh.tabs, sh.secs + [x]), ind, dir[|sh.secs| % ENTRIES := x])
  {
    var last := |sh.tabs| - 1;
    assert |sh.secs| / ENTRIES == last;
    RowsKept(disk, sh.tabs, sh.secs, last, disk[x := ZERO_SECTOR], sh.tabs, x);
    RowAppend(sh.secs, x);
    hide RowsOnDisk, Row;
    assert Owned(owner[x := Data(f, |sh.secs|)], f, root, Shape(sh.tabs, sh.secs + [x]));
  }

  /** A full table goes to its sector, and a new one is started with its first entry. */
  lemma FillTable(disk: seq<Sector>, owner: map<SectorNo, Slot>, f: SectorNo, root: SectorNo, sh: Shape,
                  ind: Table, dir: Table, t: SectorNo, x: SectorNo)
    requires Filling(disk, owner, f, root, sh, ind, dir)
    requires |sh.secs| % ENTRIES == 0 && |sh.secs| < ENTRIES * ENTRIES
    requires 0 < x < |disk| && x !in owner && 0 < t < |disk| && t !in owner && x != t
    ensures Filling(disk[sh.tabs[|sh.tabs| - 1] := Encode(dir)][x := ZERO_SECTOR],
                    owner[t := Tab(f, |sh.tabs|)][x := Data(f, |sh.secs|)], f, root,
                    Shape(sh.tabs + [t], sh.secs + [x]), ind[|sh.tabs| := t], ZERO_TABLE[0 := x])
  {
    var n := |sh.tabs|;
    var flushed := disk[sh.tabs[n - 1] := Encode(dir)];
    assert |sh.secs| / ENTRIES == n;
    RowsFlushed(disk, owner, f, root, sh, ind, dir);
    RowsKept(flushed, sh.tabs, sh.secs, n, flushed[x := ZERO_SECTOR], sh.tabs + [t], x);
    RowAppend(sh.secs, x);
    RowAppend(sh.tabs, t);
    hide RowsOnDisk, Row;
    assert Owned(owner[t := Tab(f, n)][x := Data(f, |sh.secs|)], f, root, Shape(sh.tabs + [t], sh.secs + [x]));
  }

  lemma RowsFlushed(disk: seq<Sector>, owner: map<SectorNo, Slot>, f: SectorNo, root: SectorNo, sh: Shape,
                    ind: Table, dir: Table)
    requires Filling(disk, owner, f, root, sh, ind, dir)
    ensures RowsOnDisk(disk[sh.tabs[|sh.tabs| - 1] := Encode(dir)], sh.tabs, sh.secs, |sh.tabs|)
  {
    hide Decode, Encode, Row;
    DecodeEncode(dir);
    var last := |sh.tabs| - 1;
    forall i | 0 <= i < last
      ensures sh.tabs[i] != sh.tabs[last]
    {
      assert owner[sh.tabs[i]] == Tab(f, i);
    }
  }

  /** Writing back the two buffers completes the extension. */
  lemma FillDone(disk: seq<Sector>, owner: map<SectorNo, Slot>, f: SectorNo, root: SectorNo, sh: Shape,
                 ind: Table, dir: Table)
    requires Filling(disk, owner, f, root, sh, ind, dir)
    ensures Mapped(disk[sh.tabs[|sh.tabs| - 1] := Encode(dir)][root := Encode(ind)], root, sh)
  {
    RowsFlushed(disk, owner, f, root, sh, ind, dir);
    DecodeEncode(ind);
  }

  /** How an extension began, and the sectors it was given. */
  datatype Start = Start(disk: seq<Sector>, owner: map<SectorNo, Slot>, sh: Shape, f: SectorNo, root: SectorNo,
                         avail: seq<SectorNo>)

  ghost predicate IndexOf(slot: Slot, f: SectorNo) {
    slot == Root(f) || (slot.Tab? && slot.f == f)
  }

  /** Slots are only added, for the given sectors, and the only old sectors rewritten are the
      file's own tables. */
  ghost predicate Grown(st: Start, disk: seq<Sector>, owner: map<SectorNo, Slot>) {
    && |disk| == |st.disk|
    && (forall s | s in st.owner ::
          && s < |disk| && s in owner && owner[s] == st.owner[s]
          && (IndexOf(st.owner[s], st.f) || disk[s] == st.disk[s]))
    && (forall s | s in owner :: s in st.owner || s in st.avail)
  }

  /** The old tables and sectors come first, and the data sectors after them are zero. */
  ghost predicate Appended(st: Start, disk: seq<Sector>, sh: Shape)
    requires InRange(disk, sh.secs)
  {
    && st.sh.tabs <= sh.tabs
    && st.sh.secs <= sh.secs
    && (forall k | |st.sh.secs| <= k < |sh.secs| :: disk[sh.secs[k]] == ZERO_SECTOR)
  }

  /** The loop invariant of the extension after using USED of the given sectors. */
  ghost predicate Extending(st: Start, disk: seq<Sector>, owner: map<SectorNo, Slot>, sh: Shape,
                            ind: Table, dir: Table, used: nat)
  {
    && Filling(disk, owner, st.f, st.root, sh, ind, dir)
    && Grown(st, disk, owner)
    && Appended(st, disk, sh)
    && used == |sh.secs| - |st.sh.secs| + |sh.tabs| - |st.sh.tabs| <= |st.avail|
    && (forall j | used <= j < |st.avail| :: 0 < st.avail[j] < |disk| && st.avail[j] !in owner)
    && (forall i, j | 0 <= i < j < |st.avail| :: st.avail[i] < st.avail[j])
  }

  lemma ExtendData(st: Start, disk: seq<Sector>, owner: map<SectorNo, Slot>, sh: Shape,
                   ind: Table, dir: Table, used: nat)
    requires Extending(st, disk, owner, sh, ind, dir, used) && used < |st.avail|
    requires |sh.secs| % ENTRIES != 0 && |sh.secs| < ENTRIES * ENTRIES
    ensures var x := st.avail[used];
            Extending(st, disk[x := ZERO_SECTOR], owner[x := Data(st.f, |sh.secs|)],
                      Shape(sh.tabs, sh.secs + [x]), ind, dir[|sh.secs| % ENTRIES := x], used + 1)
  {
    FillData(disk, owner, st.f, st.root, sh, ind, dir, st.avail[used]);
  }

  lemma ExtendTable(st: Start, disk: seq<Sector>, owner: map<SectorNo, Slot>, sh: Shape,
                    ind: Table, dir: Table, used: nat)
    requires Extending(st, disk, owner, sh, ind, dir, used) && used + 1 < |st.avail|
    requires |sh.secs| % ENTRIES == 0 && |sh.secs| < ENTRIES * ENTRIES
    ensures var t, x := st.avail[used], st.avail[used + 1];
            Extending(st, disk[sh.tabs[|sh.tabs| - 1] := Encode(dir)][x := ZERO_SECTOR],
                      owner[t := Tab(st.f, |sh.tabs|)][x := Data(st.f, |sh.secs|)],
                      Shape(sh.tabs + [t], sh.secs + [x]), ind[|sh.tabs| := t], ZERO_TABLE[0 := x], used + 2)
  {
    hide Encode, Decode, Row, RowsOnDisk;
    FillTable(disk, owner, st.f, st.root, sh, ind, dir, st.avail[used], st.avail[used + 1]);
  }

  /** The extension leads to N data sectors, and was given just the sectors that takes. */
  ghost predicate Needs(st: Start, n: nat) {
    && 1 <= |st.sh.secs| <= n <= ENTRIES * ENTRIES
    && |st.sh.tabs| == TablesFor(|st.sh.secs|)
    && |st.avail| == n - |st.sh.secs| + TablesFor(n) - |st.sh.tabs|
  }

  /** The given sectors are fresh: marked, but in no slot. */
  ghost predicate Given(st: Start, freeMap: seq<bool>) {
    && |freeMap| == |st.disk|
    && (forall j | 0 <= j < |st.avail| ::
        0 < st.avail[j] < |st.disk| && st.avail[j] !in st.owner && freeMap[st.avail[j]])
    && (forall i, j | 0 <= i < j < |st.avail| :: st.avail[i] < st.avail[j])
  }

  lemma MapsGrown(st: Start, freeMap: seq<bool>, disk: seq<Sector>, owner: map<SectorNo, Slot>)
    requires MapsOk(st.disk, freeMap, st.owner) && Given(st, freeMap) && Grown(st, disk, owner)
    ensures MapsOk(disk, freeMap, owner)
  {
  }

  /** The loop's counters point at the last entry in use. */
  ghost predicate ExtendIndex(st: Start, sh: Shape, dirIdx: int, indIdx: int, used: nat, n: nat) {
    && Needs(st, n)
    && 1 <= |sh.secs| <= n
    && |sh.tabs| == TablesFor(|sh.secs|)
    && dirIdx == (|sh.secs| - 1) % ENTRIES
    && indIdx == |sh.tabs| - 1
    && used == |sh.secs| - |st.sh.secs| + |sh.tabs| - |st.sh.tabs| <= |st.avail|
  }

  lemma ExtendIndexStart(st: Start, dirIdx: int, indIdx: int, n: nat)
    requires Needs(st, n)
    requires dirIdx == (|st.sh.secs| - 1) % ENTRIES && indIdx == |st.sh.tabs| - 1
    ensures ExtendIndex(st, st.sh, dirIdx, indIdx, 0, n)
  {
  }

  lemma TablesNext(m: nat)
    requires m >= 1
    ensures TablesFor(m + 1) == TablesFor(m) + if m % ENTRIES == 0 then 1 else 0
    ensures (m - 1) % ENTRIES == if m % ENTRIES == 0 then ENTRIES - 1 else m % ENTRIES - 1
    ensures 0 <= (m - 1) % ENTRIES < ENTRIES && TablesFor(m) >= 1
  {
  }

  lemma TablesMonotone(m: nat, n: nat)
    requires m <= n <= ENTRIES * ENTRIES
    ensures TablesFor(m) <= TablesFor(n) <= ENTRIES
  {
  }

  /** While sectors are left a data sector is still missing, and a new table never uses the last one. */
  lemma ExtendIndexStep(st: Start, sh: Shape, dirIdx: int, indIdx: int, used: nat, n: nat)
    requires ExtendIndex(st, sh, dirIdx, indIdx, used, n) && used < |st.avail|
    ensures |sh.secs| < n <= ENTRIES * ENTRIES && 0 <= dirIdx < ENTRIES && 0 <= indIdx < ENTRIES
    ensures indIdx == |sh.tabs| - 1
    ensures dirIdx + 1 == ENTRIES <==> |sh.secs| % ENTRIES == 0
    ensures dirIdx + 1 == ENTRIES ==> used + 1 < |st.avail| && indIdx + 1 < ENTRIES
    ensures dirIdx + 1 == ENTRIES ==>
              ExtendIndex(st, Shape(sh.tabs + [st.avail[used]], sh.secs + [st.avail[used + 1]]), 0, indIdx + 1,
                  used + 2, n)
    ensures dirIdx + 1 < ENTRIES ==>
              && |sh.secs| % ENTRIES == dirIdx + 1
              && ExtendIndex(st, Shape(sh.tabs, sh.secs + [st.avail[used]]), dirIdx + 1, indIdx, used + 1, n)
  {
    var m := |sh.secs|;
    TablesNext(m);
    TablesMonotone(m, n);
    if m < n {
      TablesMonotone(m + 1, n);
    }
    hide TablesFor;
  }

  lemma ExtendStart(st: Start, freeMap: seq<bool>)
    requires Mapped(st.disk, st.root, st.sh) && Owned(st.owner, st.f, st.root, st.sh)
    requires MapsOk(st.disk, freeMap, st.owner) && Given(st, freeMap)
    ensures 0 <= |st.sh.tabs| - 1 < ENTRIES && st.root < |st.disk|
    ensures Decode(st.disk[st.root])[|st.sh.tabs| - 1] < |st.disk|
    ensures var ind := Decode(st.disk[st.root]);
            Extending(st, st.disk, st.owner, st.sh, ind, Decode(st.disk[ind[|st.sh.tabs| - 1]]), 0)
  {
    var last := |st.sh.tabs| - 1;
    assert Decode(st.disk[st.root])[last] == st.sh.tabs[last];
  }

  lemma ExtendingFacts(st: Start, disk: seq<Sector>, owner: map<SectorNo, Slot>, sh: Shape,
                       ind: Table, dir: Table, used: nat)
    requires Extending(st, disk, owner, sh, ind, dir, used)
    ensures |disk| == |st.disk| && st.root < |disk|
    ensures 1 <= |sh.tabs| <= ENTRIES && ind[|sh.tabs| - 1] == sh.tabs[|sh.tabs| - 1] < |disk|
    ensures forall j | used <= j < |st.avail| :: st.avail[j] < |disk|
  {
  }

  lemma ExtendDone(st: Start, disk: seq<Sector>, owner: map<SectorNo, Slot>, sh: Shape,
                   ind: Table, dir: Table, used: nat)
    requires Extending(st, disk, owner, sh, ind, dir, used)
    ensures sh.tabs[|sh.tabs| - 1] < |disk| && st.root < |disk|
    ensures var disk' := disk[sh.tabs[|sh.tabs| - 1] := Encode(dir)][st.root := Encode(ind)];
            && Mapped(disk', st.root, sh) && Owned(owner, st.f, st.root, sh)
            && Grown(st, disk', owner) && Appended(st, disk', sh)
  {
    FillDone(disk, owner, st.f, st.root, sh, ind, dir);
  }

  /** When the given sectors are used up the file has its N data sectors. */
  lemma ExtendIndexDone(st: Start, sh: Shape, dirIdx: int, indIdx: int, used: nat, n: nat)
    requires ExtendIndex(st, sh, dirIdx, indIdx, used, n) && |st.avail| <= used
    ensures |sh.secs| == n && indIdx == |sh.tabs| - 1 == TablesFor(n) - 1 && dirIdx == (n - 1) % ENTRIES
  {
  }

  /** The sectors in use for file G keep their slots and their bytes. */
  ghost predicate SameFor(g: SectorNo, disk: seq<Sector>, owner: map<SectorNo, Slot>,
                          disk': seq<Sector>, owner': map<SectorNo, Slot>)
  {
    && |disk'| == |disk|
    && forall s | s in owner && owner[s].f == g ::
         s < |disk| && s in owner' && owner'[s] == owner[s] && disk'[s] == disk[s]
  }

  lemma FileKept(g: SectorNo, d: InodeData, sh: Shape, disk: seq<Sector>, owner: map<SectorNo, Slot>,
                 disk': seq<Sector>, owner': map<SectorNo, Slot>)
    requires FileOk(disk, owner, g, d, sh) && SameFor(g, disk, owner, disk', owner')
    ensures FileOk(disk', owner', g, d, sh)
    ensures BytesOf(disk', owner', g, d, sh) == BytesOf(disk, owner, g, d, sh)
  {
    assert forall k | 0 <= k < |sh.secs| :: disk'[sh.secs[k]] == disk[sh.secs[k]];
    assert forall i | 0 <= i < |sh.tabs| :: disk'[sh.tabs[i]] == disk[sh.tabs[i]];
    assert forall p | 0 <= p < SECTOR_SIZE * |sh.secs| :: ByteAt(disk', sh.secs, p) == ByteAt(disk, sh.secs, p);
  }

  lemma GrownKeepsOthers(st: Start, disk: seq<Sector>, owner: map<SectorNo, Slot>, g: SectorNo)
    requires Grown(st, disk, owner) && g != st.f
    ensures SameFor(g, st.disk, st.owner, disk, owner)
  {
  }

  /** After an extension the bytes of the file are the old ones and then zeros. */
  lemma GrownBytes(st: Start, disk: seq<Sector>, owner: map<SectorNo, Slot>, sh: Shape, length: nat, p: nat)
    requires Placed(st.disk, st.root, st.sh) && Owned(st.owner, st.f, st.root, st.sh) && Sized(st.disk, length, st.sh)
    requires Grown(st, disk, owner) && InRange(disk, sh.secs) && Appended(st, disk, sh)
    requires p < SECTOR_SIZE * |sh.secs|
    ensures ByteAt(disk, sh.secs, p) == if p < length then ByteAt(st.disk, st.sh.secs, p) else 0
  {
    var k := p / SECTOR_SIZE;
    if k < |st.sh.secs| {
      assert sh.secs[k] == st.sh.secs[k];
      assert disk[sh.secs[k]] == st.disk[st.sh.secs[k]];
      assert ByteAt(disk, sh.secs, p) == ByteAt(st.disk, st.sh.secs, p);
    } else {
      assert disk[sh.secs[k]] == ZERO_SECTOR;
    }
  }

  lemma GrownFile(st: Start, disk: seq<Sector>, owner: map<SectorNo, Slot>, sh: Shape, d: InodeData, cnt: nat)
    requires FileOk(st.disk, st.owner, st.f, d, st.sh) && st.root == d.root
    requires Grown(st, disk, owner) && Mapped(disk, d.root, sh) && Owned(owner, st.f, d.root, sh)
    requires Appended(st, disk, sh)
    requires d.length + cnt <= MAX_FILE && |sh.secs| == SectorsFor(d.length + cnt)
    ensures FileOk(disk, owner, st.f, d.(length := d.length + cnt), sh)
    ensures BytesOf(disk, owner, st.f, d.(length := d.length + cnt), sh)
            == BytesOf(st.disk, st.owner, st.f, d, st.sh) + Zeros(cnt)
  {
    forall p: nat | p < SECTOR_SIZE * |sh.secs|
      ensures ByteAt(disk, sh.secs, p) == if p < d.length then ByteAt(st.disk, st.sh.secs, p) else 0
    {
      GrownBytes(st, disk, owner, sh, d.length, p);
    }
  }

  /** Files other than F still hold the same bytes with these sectors and slots. */
  ghost predicate FilesStill(v: View, f: SectorNo, disk: seq<Sector>, owner: map<SectorNo, Slot>)
    requires Ok(v)
  {
    forall g | g in v.inodes && g != f ::
      FileOk(disk, owner, g, v.inodes[g], v.shape[g])
          && BytesOf(disk, owner, g, v.inodes[g], v.shape[g]) == ContentsOf(v, g)
  }

  lemma StillIfSame(v: View, f: SectorNo, disk: seq<Sector>, owner: map<SectorNo, Slot>)
    requires Ok(v)
    requires forall g | g in v.inodes && g != f :: SameFor(g, v.disk, v.owner, disk, owner)
    ensures FilesStill(v, f, disk, owner)
  {
    hide FileOk, BytesOf, SameFor, MapsOk;
    forall g | g in v.inodes && g != f
      ensures FileOk(disk, owner, g, v.inodes[g], v.shape[g])
              && BytesOf(disk, owner, g, v.inodes[g], v.shape[g]) == ContentsOf(v, g)
    {
      FileKept(g, v.inodes[g], v.shape[g], v.disk, v.owner, disk, owner);
    }
  }

  /** A volume whose files but F are as in V, and whose file F is in order, is in order. */
  lemma Reassembled(v: View, w: View, f: SectorNo)
    requires Ok(v) && FilesStill(v, f, w.disk, w.owner) && MapsOk(w.disk, w.freeMap, w.owner)
    requires w.shape.Keys == w.inodes.Keys && w.inodes - {f} == v.inodes - {f} && w.shape - {f} == v.shape - {f}
    requires f in w.inodes ==> FileOk(w.disk, w.owner, f, w.inodes[f], w.shape[f])
    ensures Ok(w) && OthersSame(v, w, f)
  {
    hide FileOk, BytesOf, MapsOk;
    assert forall g | g in v.inodes && g != f :: g in w.inodes - {f} && g in w.shape - {f};
    assert forall g | g in w.inodes && g != f :: g in v.inodes - {f};
  }

  lemma OkFacts(v: View, f: SectorNo)
    requires Ok(v) && f in v.inodes
    ensures MapsOk(v.disk, v.freeMap, v.owner) && f in v.shape
    ensures FileOk(v.disk, v.owner, f, v.inodes[f], v.shape[f])
    ensures Mapped(v.disk, v.inodes[f].root, v.shape[f]) && Owned(v.owner, f, v.inodes[f].root, v.shape[f])
    ensures |v.shape[f].secs| == SectorsFor(v.inodes[f].length)
    ensures |v.shape[f].tabs| == TablesFor(|v.shape[f].secs|)
  {
  }

  /** AVAIL are sectors that were free in FREEMAP0, in increasing order, and FREEMAP marks just them more. */
  ghost predicate Taken(freeMap0: seq<bool>, freeMap: seq<bool>, avail: seq<SectorNo>) {
    && |freeMap| == |freeMap0|
    && (forall j | 0 <= j < |avail| :: 0 < avail[j] < |freeMap| && !freeMap0[avail[j]])
    && (forall i, j | 0 <= i < j < |avail| :: avail[i] < avail[j])
    && (forall s: SectorNo | s < |freeMap| :: freeMap[s] == (freeMap0[s] || s in avail))
  }

  /** The loop that marks N sectors, AVAIL so far, has reached sector I. */
  ghost predicate Taking(m: seq<bool>, m': seq<bool>, avail: seq<SectorNo>, n: nat, i: nat) {
    && |m'| == |m| < 0x1_0000_0000 && i <= |m| && |avail| <= n && |avail| == CountFree(m[..i])
    && (forall j | 0 <= j < i :: m'[j] && CountFree(m[..j]) < n)
    && (forall j | i <= j < |m| :: m'[j] == m[j])
    && (forall j | 0 <= j < |avail| :: 0 < avail[j] < i && !m[avail[j]])
    && (forall j, k | 0 <= j < k < |avail| :: avail[j] < avail[k])
    && (forall j: SectorNo | j < i :: m[j] || j in avail)
  }

  lemma TakingStart(m: seq<bool>, n: nat)
    requires |m| < 0x1_0000_0000
    ensures Taking(m, m, [], n, 0)
  {
  }

  lemma TakingStep(m: seq<bool>, m': seq<bool>, avail: seq<SectorNo>, n: nat, i: nat)
    requires Taking(m, m', avail, n, i) && i < |m| && |avail| < n && m[0]
    ensures |m'| == |m| && i < |m'| && 0 <= i < 0x1_0000_0000
    ensures if m'[i] then Taking(m, m', avail, n, i + 1) else Taking(m, m'[i := true], avail + [i], n, i + 1)
  {
    CountFreeNext(m, i);
    hide CountFree;
    var more: seq<SectorNo> := avail + [i];
    assert forall j: SectorNo | j in avail :: j in more;
    assert more[|avail|] == i;
    assert i in more;
  }

  lemma TakingDone(m: seq<bool>, m': seq<bool>, avail: seq<SectorNo>, n: nat, i: nat)
    requires Taking(m, m', avail, n, i) && n <= CountFree(m) && (i >= |m| || |avail| >= n)
    ensures |avail| == n && m' == Take(m, n) && Taken(m, m', avail)
  {
    hide CountFree, Take, Taken;
    TakenAll(m, m', n, i);
    TakingTaken(m, m', avail, n, i);
  }

  lemma TakingTaken(m: seq<bool>, m': seq<bool>, avail: seq<SectorNo>, n: nat, i: nat)
    requires Taking(m, m', avail, n, i)
    ensures Taken(m, m', avail)
  {
    hide CountFree;
    assert forall s: SectorNo | s in avail :: s < i;
  }

  lemma CountFreeNext(m: seq<bool>, i: nat)
    requires i < |m|
    ensures CountFree(m[..i + 1]) == CountFree(m[..i]) + if m[i] then 0 else 1
  {
    assert m[..i + 1][..i] == m[..i];
  }

  lemma TakenAll(m: seq<bool>, m': seq<bool>, n: nat, i: nat)
    requires |m'| == |m| && i <= |m| && n <= CountFree(m) && (i == |m| || CountFree(m[..i]) >= n)
    requires forall j | 0 <= j < i :: m'[j] && CountFree(m[..j]) < n
    requires forall j | i <= j < |m| :: m'[j] == m[j]
    ensures m' == Take(m, n) && CountFree(m[..i]) >= n
  {
    assert m[..|m|] == m;
    forall j | i <= j < |m|
      ensures CountFree(m[..j]) >= n
    {
      CountFreePrefix(m, i, j);
    }
  }

  lemma NeedsExactly(st: Start, length: nat, cnt: nat)
    requires length + cnt <= MAX_FILE && |st.avail| == NewSectors(length, cnt)
    requires |st.sh.secs| == SectorsFor(length) && |st.sh.tabs| == TablesFor(|st.sh.secs|)
    ensures Needs(st, SectorsFor(length + cnt))
  {
    NewSectorsExact(length, cnt);
  }

  lemma NotGrown(st: Start, freeMap: seq<bool>, length: nat, cnt: nat)
    requires NewSectors(length, cnt) == 0
    requires MapsOk(st.disk, freeMap, st.owner) && Mapped(st.disk, st.root, st.sh)
    ensures Grown(st, st.disk, st.owner) && Appended(st, st.disk, st.sh)
    ensures SectorsFor(length + cnt) == SectorsFor(length)
  {
    NewSectorsExact(length, cnt);
  }

  /** What V' is after file ST.F of volume V grew by CNT bytes. */
  ghost predicate GrewTo(v: View, v': View, st: Start, cnt: nat)
    requires Ok(v) && st.f in v.inodes
  {
    var d := v.inodes[st.f];
    && st.disk == v.disk && st.owner == v.owner && st.sh == v.shape[st.f] && st.root == d.root
    && d.length + cnt <= MAX_FILE
    && v'.inodes == v.inodes[st.f := d.(length := d.length + cnt)]
    && v'.shape.Keys == v.shape.Keys && v'.shape == v.shape[st.f := v'.shape[st.f]]
    && MapsOk(v'.disk, v'.freeMap, v'.owner)
    && Grown(st, v'.disk, v'.owner)
    && Mapped(v'.disk, d.root, v'.shape[st.f]) && Owned(v'.owner, st.f, d.root, v'.shape[st.f])
    && Appended(st, v'.disk, v'.shape[st.f])
    && |v'.shape[st.f].secs| == SectorsFor(d.length + cnt)
  }

  lemma NothingChanged(v: View, f: SectorNo)
    requires Ok(v)
    ensures OthersSame(v, v, f)
  {
  }

  lemma OthersSameTrans(v: View, v1: View, v2: View, f: SectorNo)
    requires Ok(v) && Ok(v1) && Ok(v2) && OthersSame(v, v1, f) && OthersSame(v1, v2, f)
    ensures OthersSame(v, v2, f)
  {
    hide Ok, ContentsOf;
  }

  lemma RestSameTrans(v: View, v1: View, v2: View, f: SectorNo)
    requires Ok(v) && Ok(v1) && Ok(v2) && RestSame(v, v1, f) && RestSame(v1, v2, f)
    ensures RestSame(v, v2, f)
  {
    hide Ok, ContentsOf;
  }

  lemma ContentsKept(v: View, v': View, f: SectorNo)
    requires Ok(v) && Ok(v') && f in v.inodes && RestSame(v, v', FREE_MAP_SECTOR)
    ensures f != FREE_MAP_SECTOR ==> f in v'.inodes && ContentsOf(v', f) == ContentsOf(v, f)
  {
    hide Ok, ContentsOf;
  }

  lemma OthersRest(v: View, v': View, f: SectorNo)
    requires Ok(v) && Ok(v') && OthersSame(v, v', f)
    ensures RestSame(v, v', f)
  {
    hide Ok, ContentsOf;
  }

  /** If only the contents of the free map's file changed, the rest is the same. */
  lemma MapRest(v: View, v': View, f: SectorNo)
    requires Ok(v) && Ok(v') && OthersSame(v, v', FREE_MAP_SECTOR)
    requires v'.inodes == v.inodes && v'.shape == v.shape
    ensures RestSame(v, v', f)
  {
    hide Ok, ContentsOf;
  }

  lemma SavedKept(v: View, v': View, f: SectorNo)
    requires Ok(v) && Ok(v') && Saved(v) && OthersSame(v, v', f) && f != FREE_MAP_SECTOR && v'.freeMap == v.freeMap
    ensures Saved(v')
  {
    hide Ok, ContentsOf, Unpacked;
  }

  lemma PlacedKept(v: View, v': View, f: SectorNo)
    requires Ok(v) && Ok(v') && MapPlaced(v) && RestSame(v, v', f) && f != FREE_MAP_SECTOR
    requires |v'.freeMap| == |v.freeMap|
    ensures MapPlaced(v')
    ensures MapTail(v', true) == MapTail(v, true)
  {
    hide ContentsOf, TailOf;
  }

  /** Marks may change for any sector that is in no slot, but the two system sectors. */
  ghost predicate Remarks(v: View, m: seq<bool>) {
    && |m| == |v.freeMap| && 2 <= |m| && m[FREE_MAP_SECTOR] && m[ROOT_DIR_SECTOR]
    && forall s | s in v.owner :: s < |m| && m[s]
  }

  lemma Remarked(v: View, m: seq<bool>, f: SectorNo)
    requires Ok(v) && Remarks(v, m)
    ensures var w := v.(freeMap := m);
            Ok(w) && OthersSame(v, w, f) && (f in v.inodes ==> ContentsOf(w, f) == ContentsOf(v, f))
  {
    hide FileOk, BytesOf;
  }

  /** A sector that is no file's data or table can be overwritten. */
  lemma Unrelated(v: View, s: SectorNo, content: Sector, f: SectorNo)
    requires Ok(v) && s < |v.disk| && (s in v.owner ==> v.owner[s].Header?)
    ensures var w := v.(disk := v.disk[s := content]);
            Ok(w) && OthersSame(v, w, f) && (f in v.inodes ==> ContentsOf(w, f) == ContentsOf(v, f))
  {
    var w := v.(disk := v.disk[s := content]);
    assert MapsOk(w.disk, w.freeMap, w.owner);
    hide FileOk, BytesOf, MapsOk, OthersSame;
    forall g | g in v.inodes
      ensures FileOk(w.disk, w.owner, g, v.inodes[g], v.shape[g])
      ensures BytesOf(w.disk, w.owner, g, v.inodes[g], v.shape[g]) == ContentsOf(v, g)
    {
      FileStays(g, v.inodes[g], v.shape[g], v.disk, v.owner, s, content);
    }
    Reassembled(v, w, f);
  }

  lemma FileStays(g: SectorNo, d: InodeData, sh: Shape, disk: seq<Sector>, owner: map<SectorNo, Slot>,
                  s: SectorNo, content: Sector)
    requires FileOk(disk, owner, g, d, sh) && s < |disk| && (s in owner ==> owner[s].Header?)
    ensures FileOk(disk[s := content], owner, g, d, sh)
    ensures BytesOf(disk[s := content], owner, g, d, sh) == BytesOf(disk, owner, g, d, sh)
  {
    var disk' := disk[s := content];
    assert forall k | 0 <= k < |sh.secs| :: disk'[sh.secs[k]] == disk[sh.secs[k]];
    assert forall i | 0 <= i < |sh.tabs| :: disk'[sh.tabs[i]] == disk[sh.tabs[i]];
    assert disk'[d.root] == disk[d.root];
    assert forall p | 0 <= p < SECTOR_SIZE * |sh.secs| :: ByteAt(disk', sh.secs, p) == ByteAt(disk, sh.secs, p);
  }

  lemma VolumeGrown(v: View, v': View, st: Start, cnt: nat)
    requires Ok(v) && st.f in v.inodes && GrewTo(v, v', st, cnt)
    ensures Ok(v') && ContentsOf(v', st.f) == ContentsOf(v, st.f) + Zeros(cnt)
    ensures OthersSame(v, v', st.f)
    ensures v.shape[st.f].tabs <= v'.shape[st.f].tabs && v.shape[st.f].secs <= v'.shape[st.f].secs
  {
    hide FileOk, BytesOf, Grown, Mapped, Owned, MapsOk, FilesStill, SameFor;
    GrownFile(st, v'.disk, v'.owner, v'.shape[st.f], v.inodes[st.f], cnt);
    forall g | g in v.inodes && g != st.f
      ensures SameFor(g, v.disk, v.owner, v'.disk, v'.owner)
    {
      GrownKeepsOthers(st, v'.disk, v'.owner, g);
    }
    StillIfSame(v, st.f, v'.disk, v'.owner);
    Reassembled(v, v', st.f);
  }

  /** Rewriting part of one data sector rewrites just those bytes of that file. */
  lemma SectorWritten(v: View, f: SectorNo, k: nat, ofs: nat, piece: seq<Byte>)
    requires Ok(v) && f in v.inodes && k < |v.shape[f].secs| && ofs + |piece| <= SECTOR_SIZE
    requires SECTOR_SIZE * k + ofs + |piece| <= v.inodes[f].length
    requires v.shape[f].secs[k] < |v.disk|
    ensures var s := v.shape[f].secs[k];
            var v' := v.(disk := v.disk[s := Overlay(v.disk[s], ofs, piece)]);
            && Ok(v') && OthersSame(v, v', f)
            && ContentsOf(v', f) == Overlay(ContentsOf(v, f), SECTOR_SIZE * k + ofs, piece)
  {
    var s := v.shape[f].secs[k];
    var v' := v.(disk := v.disk[s := Overlay(v.disk[s], ofs, piece)]);
    OwnSectorWritten(v.disk, v.owner, f, v.inodes[f], v.shape[f], k, ofs, piece);
    assert v.owner[s] == Data(f, k);
    hide FileOk, BytesOf, FilesStill;
    StillIfSame(v, f, v'.disk, v'.owner);
    Reassembled(v, v', f);
  }

  lemma InFile(v: View, f: SectorNo, at: nat)
    requires Ok(v) && f in v.inodes && at < v.inodes[f].length
    ensures f in v.shape && at < MAX_FILE && at < SECTOR_SIZE * |v.shape[f].secs|
    ensures v.shape[f].secs[at / SECTOR_SIZE] < |v.disk|
    ensures SECTOR_SIZE * (at / SECTOR_SIZE) + at % SECTOR_SIZE == at
  {
  }

  lemma SectorRead(v: View, f: SectorNo, at: nat, chunk: nat)
    requires Ok(v) && f in v.inodes && at / SECTOR_SIZE < |v.shape[f].secs|
             && v.shape[f].secs[at / SECTOR_SIZE] < |v.disk|
    requires at + chunk <= v.inodes[f].length && at % SECTOR_SIZE + chunk <= SECTOR_SIZE
    ensures v.disk[v.shape[f].secs[at / SECTOR_SIZE]][at % SECTOR_SIZE..at % SECTOR_SIZE + chunk]
         == ContentsOf(v, f)[at..at + chunk]
  {
    assert FileOk(v.disk, v.owner, f, v.inodes[f], v.shape[f]);
    var secs := v.shape[f].secs;
    var ofs := at % SECTOR_SIZE;
    var piece, want := v.disk[secs[at / SECTOR_SIZE]][ofs..ofs + chunk], ContentsOf(v, f)[at..at + chunk];
    forall i | 0 <= i < chunk
      ensures piece[i] == want[i]
    {
      assert (at + i) / SECTOR_SIZE == at / SECTOR_SIZE && (at + i) % SECTOR_SIZE == ofs + i;
      assert ContentsOf(v, f)[at + i] == ByteAt(v.disk, secs, at + i);
    }
  }

  lemma OwnSectorWritten(disk: seq<Sector>, owner: map<SectorNo, Slot>, f: SectorNo, d: InodeData, sh: Shape,
                         k: nat, ofs: nat, piece: seq<Byte>)
    requires FileOk(disk, owner, f, d, sh) && k < |sh.secs| && ofs + |piece| <= SECTOR_SIZE
    requires SECTOR_SIZE * k + ofs + |piece| <= d.length
    ensures var disk' := disk[sh.secs[k] := Overlay(disk[sh.secs[k]], ofs, piece)];
            && FileOk(disk', owner, f, d, sh)
            && BytesOf(disk', owner, f, d, sh) == Overlay(BytesOf(disk, owner, f, d, sh), SECTOR_SIZE * k + ofs, piece)
  {
    var s := sh.secs[k];
    var disk' := disk[s := Overlay(disk[s], ofs, piece)];
    var at := SECTOR_SIZE * k + ofs;
    forall p: nat | p < SECTOR_SIZE * |sh.secs|
      ensures ByteAt(disk', sh.secs, p)
           == if at <= p < at + |piece| then piece[p - at] else ByteAt(disk, sh.secs, p)
    {
      var k' := p / SECTOR_SIZE;
      assert owner[sh.secs[k']] == Data(f, k');
      if at <= p < at + |piece| {
        assert k' == k && p % SECTOR_SIZE == p - SECTOR_SIZE * k;
      }
    }
    assert forall i | 0 <= i < |sh.tabs| :: owner[sh.tabs[i]] == Tab(f, i);
    assert forall i | 0 <= i < |sh.tabs| :: disk'[sh.tabs[i]] == disk[sh.tabs[i]];
    assert Mapped(disk', d.root, sh);
    assert BytesOf(disk', owner, f, d, sh) == Overlay(BytesOf(disk, owner, f, d, sh), at, piece);
  }

  /** Three different sectors that are marked, but in no slot. */
  ghost predicate Fresh3(freeMap: seq<bool>, owner: map<SectorNo, Slot>, root: SectorNo, ind: SectorNo, dir: SectorNo) {
    && 1 < root < |freeMap| && freeMap[root] && root !in owner
    && 1 < ind < |freeMap| && freeMap[ind] && ind !in owner
    && 1 < dir < |freeMap| && freeMap[dir] && dir !in owner
    && root != ind && ind != dir && dir != root
  }

  lemma OkMaps(v: View)
    requires Ok(v)
    ensures MapsOk(v.disk, v.freeMap, v.owner) && v.shape.Keys == v.inodes.Keys && |v.disk| == |v.freeMap|
  {
  }

  /** Volume V with an empty file whose inode is in SECTOR. */
  ghost function CreatedView(v: View, sector: SectorNo, root: SectorNo, ind: SectorNo, dir: SectorNo,
                             isDirectory: bool): View
    requires root < |v.disk| == |v.freeMap| && ind < |v.disk| && dir < |v.disk|
  {
    View(v.disk[dir := ZERO_SECTOR][ind := Encode(ZERO_TABLE[0 := dir])][root := Encode(ZERO_TABLE[0 := ind])],
         v.freeMap,
         v.inodes[sector := InodeData(0, root, isDirectory, 0)],
         v.shape[sector := Shape([ind], [dir])],
         v.owner[sector := Header(sector)][root := Root(sector)][ind := Tab(sector, 0)][dir := Data(sector, 0)])
  }

  /** Slots are only added, and no sector of an old slot is rewritten. */
  ghost predicate SlotsKept(disk: seq<Sector>, owner: map<SectorNo, Slot>, disk': seq<Sector>,
                            owner': map<SectorNo, Slot>) {
    && |disk'| == |disk|
    && forall s | s in owner :: s < |disk| && s in owner' && owner'[s] == owner[s] && disk'[s] == disk[s]
  }

  lemma StillIfKept(v: View, f: SectorNo, disk: seq<Sector>, owner: map<SectorNo, Slot>)
    requires Ok(v) && SlotsKept(v.disk, v.owner, disk, owner)
    ensures FilesStill(v, f, disk, owner)
  {
    hide Ok, FilesStill;
    StillIfSame(v, f, disk, owner);
  }

  lemma CreatedSlots(v: View, sector: SectorNo, root: SectorNo, ind: SectorNo, dir: SectorNo, isDirectory: bool)
    requires MapsOk(v.disk, v.freeMap, v.owner) && Fresh3(v.freeMap, v.owner, root, ind, dir)
    requires sector < |v.freeMap| && v.freeMap[sector] && sector !in v.owner && sector !in {root, ind, dir}
    ensures var w := CreatedView(v, sector, root, ind, dir, isDirectory);
            && MapsOk(w.disk, w.freeMap, w.owner)
            && SlotsKept(v.disk, v.owner, w.disk, w.owner)
            && FileOk(w.disk, w.owner, sector, w.inodes[sector], w.shape[sector])
  {
    var w := CreatedView(v, sector, root, ind, dir, isDirectory);
    hide Encode;
    NewFileOk(w.disk, w.owner, sector, root, ind, dir, isDirectory);
    hide FileOk;
    assert MapsOk(w.disk, w.freeMap, w.owner);
  }

  lemma CreatedOk(v: View, sector: SectorNo, root: SectorNo, ind: SectorNo, dir: SectorNo, isDirectory: bool)
    requires Ok(v) && Fresh3(v.freeMap, v.owner, root, ind, dir)
    requires sector < |v.freeMap| && v.freeMap[sector] && sector !in v.owner && sector !in v.inodes
    requires sector !in {root, ind, dir}
    ensures root < |v.disk| == |v.freeMap| && ind < |v.disk| && dir < |v.disk|
    ensures var w := CreatedView(v, sector, root, ind, dir, isDirectory);
            Ok(w) && OthersSame(v, w, sector) && ContentsOf(w, sector) == []
  {
    hide Ok, MapsOk, FileOk, FilesStill, OthersSame, ContentsOf, SlotsKept, Encode;
    OkMaps(v);
    CreatedSlots(v, sector, root, ind, dir, isDirectory);
    var w := CreatedView(v, sector, root, ind, dir, isDirectory);
    StillIfKept(v, sector, w.disk, w.owner);
    Reassembled(v, w, sector);
  }

  lemma NewFileOk(disk: seq<Sector>, owner: map<SectorNo, Slot>, sector: SectorNo, root: SectorNo, ind: SectorNo,
                  dir: SectorNo, isDirectory: bool)
    requires 0 < root < |disk| && 0 < ind < |disk| && 0 < dir < |disk|
    requires disk[dir] == ZERO_SECTOR
    requires disk[ind] == Encode(ZERO_TABLE[0 := dir]) && disk[root] == Encode(ZERO_TABLE[0 := ind])
    requires Owned(owner, sector, root, Shape([ind], [dir]))
    ensures FileOk(disk, owner, sector, InodeData(0, root, isDirectory, 0), Shape([ind], [dir]))
  {
    assert Row([ind], 0) == ZERO_TABLE[0 := ind] && Row([dir], 0) == ZERO_TABLE[0 := dir];
    DecodeEncode(ZERO_TABLE[0 := dir]);
    DecodeEncode(ZERO_TABLE[0 := ind]);
    hide Row, Encode, Decode;
    assert Mapped(disk, root, Shape([ind], [dir]));
    assert Sized(disk, 0, Shape([ind], [dir]));
  }

  lemma UndoneSlots(v: View, sector: SectorNo, root: SectorNo, ind: SectorNo, dir: SectorNo, isDirectory: bool)
    requires MapsOk(v.disk, v.freeMap, v.owner) && Fresh3(v.freeMap, v.owner, root, ind, dir) && sector !in v.owner
    ensures var w := CreatedView(v, sector, root, ind, dir, isDirectory);
            && w.owner - {sector, root, ind, dir} == v.owner
            && MapsOk(w.disk, w.freeMap, v.owner)
            && SlotsKept(v.disk, v.owner, w.disk, v.owner)
  {
    hide Encode;
    var w := CreatedView(v, sector, root, ind, dir, isDirectory);
    assert w.owner - {sector, root, ind, dir} == v.owner;
  }

  /** Taking the new file back leaves the volume as it was, but for the contents of the three sectors. */
  lemma CreateUndone(v: View, sector: SectorNo, root: SectorNo, ind: SectorNo, dir: SectorNo, isDirectory: bool)
    requires Ok(v) && Fresh3(v.freeMap, v.owner, root, ind, dir) && sector !in v.owner && sector !in v.inodes
    ensures root < |v.disk| == |v.freeMap| && ind < |v.disk| && dir < |v.disk|
    ensures var w := CreatedView(v, sector, root, ind, dir, isDirectory);
            var u := View(w.disk, w.freeMap, w.inodes - {sector}, w.shape - {sector},
                          w.owner - {sector, root, ind, dir});
            && u.inodes == v.inodes && u.shape == v.shape && u.owner == v.owner && Ok(u) && OthersSame(v, u, sector)
  {
    hide Ok, MapsOk, FilesStill, OthersSame, SlotsKept, Encode;
    OkMaps(v);
    var w := CreatedView(v, sector, root, ind, dir, isDirectory);
    UndoneSlots(v, sector, root, ind, dir, isDirectory);
    assert w.inodes - {sector} == v.inodes && w.shape - {sector} == v.shape;
    StillIfKept(v, sector, w.disk, v.owner);
    Reassembled(v, v.(disk := w.disk), sector);
  }

  const INODE_MAGIC: SectorNo := 0x494e_4f44

  /** An inode's own sector: the fields in the first four words, and zeros. */
  function HeaderOf(d: InodeData): Sector
    requires d.length < 0x1_0000_0000
  {
    Encode(ZERO_TABLE[0 := d.length][1 := if d.isDirectory then 1 else 0][2 := d.root][3 := INODE_MAGIC])
  }

  /** An inode read from the sector it was written to is the same. */
  lemma HeaderMeans(d: InodeData)
    requires d.length < 0x1_0000_0000
    ensures var t := Decode(HeaderOf(d));
            t[0] == d.length && (t[1] != 0 <==> d.isDirectory) && t[2] == d.root && t[3] == INODE_MAGIC
  {
    DecodeEncode(ZERO_TABLE[0 := d.length][1 := if d.isDirectory then 1 else 0][2 := d.root][3 := INODE_MAGIC]);
    hide Encode, Decode;
  }

  /** What a write of DATA at OFFSET makes of contents C when there is room: the gap reads as zeros. */
  function Written(c: seq<Byte>, data: seq<Byte>, offset: nat): (r: seq<Byte>)
    ensures |r| == if offset + |data| > |c| then offset + |data| else |c|
    ensures forall p | 0 <= p < |r| ::
              r[p] == if offset <= p < offset + |data| then data[p - offset] else if p < |c| then c[p] else 0
  {
    Overlay(if offset + |data| > |c| then c + Zeros(offset + |data| - |c|) else c, offset, data)
  }

  /** The part of DATA that fits below the current end of contents C. */
  function Fitting(c: seq<Byte>, data: seq<Byte>, offset: nat): seq<Byte> {
    if offset >= |c| then [] else if offset + |data| <= |c| then data else data[..|c| - offset]
  }

  /** C with the part of DATA that fits copied over the bytes from OFFSET on. */
  function Patched(c: seq<Byte>, data: seq<Byte>, offset: nat): (r: seq<Byte>)
    ensures |r| == |c|
  {
    if offset >= |c| then c else Overlay(c, offset, Fitting(c, data, offset))
  }

  lemma PatchedStep(c: seq<Byte>, c': seq<Byte>, data: seq<Byte>, offset: nat, m: nat)
    requires m <= |data| && offset + m <= |c| && c' == Overlay(c, offset, data[..m])
    ensures Patched(c', data[m..], offset + m) == Patched(c, data, offset)
    ensures |Fitting(c', data[m..], offset + m)| + m == |Fitting(c, data, offset)|
  {
    if offset + m < |c| {
      var whole, part := Fitting(c, data, offset), Fitting(c', data[m..], offset + m);
      assert part == whole[m..];
    } else {
      assert Fitting(c, data, offset) == data[..m] || offset == |c|;
      assert Patched(c, data, offset) == c';
    }
  }

  lemma PatchedNext(c: seq<Byte>, c': seq<Byte>, data: seq<Byte>, written: nat, at: nat, m: nat)
    requires written + m <= |data| && at + m <= |c| && c' == Overlay(c, at, data[written..written + m])
    ensures Patched(c', data[written + m..], at + m) == Patched(c, data[written..], at)
    ensures |Fitting(c', data[written + m..], at + m)| + m == |Fitting(c, data[written..], at)|
  {
    var rest := data[written..];
    assert rest[..m] == data[written..written + m] && rest[m..] == data[written + m..];
    PatchedStep(c, c', rest, at, m);
  }

  lemma PatchedNone(c: seq<Byte>, data: seq<Byte>, offset: nat)
    requires |data| == 0 || |c| <= offset
    ensures Patched(c, data, offset) == c && Fitting(c, data, offset) == []
  {
  }

  /** Extending with zeros and then patching is the whole write. */
  lemma PatchedIsWritten(c: seq<Byte>, data: seq<Byte>, offset: nat)
    ensures offset + |data| > |c| ==>
              var c' := c + Zeros(offset + |data| - |c|);
              Patched(c', data, offset) == Written(c, data, offset) && |Fitting(c', data, offset)| == |data|
    ensures offset + |data| <= |c| ==>
              Patched(c, data, offset) == Written(c, data, offset) && |Fitting(c, data, offset)| == |data|
  {
  }

  /** The bytes of C from OFFSET on, at most SIZE of them. */
  function Slice(c: seq<Byte>, offset: nat, size: int): seq<Byte> {
    var end := if offset + size < |c| then offset + size else |c|;
    if end <= offset then [] else c[offset..end]
  }

  /** How many of SIZE bytes at OFFSET lie below LENGTH. */
  function Clipped(length: nat, size: int, offset: nat): nat {
    if size <= 0 || offset >= length then 0 else if offset + size <= length then size else length - offset
  }

  lemma SliceIs(c: seq<Byte>, offset: nat, size: int)
    ensures var r := Slice(c, offset, size);
            && |r| == Clipped(|c|, size, offset) && (|r| > 0 ==> offset + |r| <= |c|)
            && forall i | 0 <= i < |r| :: r[i] == c[offset + i]
  {
  }

  /** What a write that is not denied makes of contents C: C', of which WRITTEN bytes are new.  The file grows if it has
      to and there are FREE sectors enough; the bytes of a gap are zero. */
  ghost predicate WritesTo(c: seq<Byte>, free: nat, data: seq<Byte>, offset: nat, c': seq<Byte>, written: nat) {
    var end := offset + |data|;
    var room := end <= |c| || NewSectors(|c|, end - |c|) <= free;
    && written == (if room then |data| else Clipped(|c|, |data|, offset))
    && |c'| == (if room && end > |c| then end else |c|)
    && forall p | 0 <= p < |c'| ::
         c'[p] == if offset <= p < offset + written then data[p - offset] else if p < |c| then c[p] else 0
  }

  /** The free map M' after a file grew from LENGTH to LENGTH' bytes, or did not. */
  ghost predicate TakesFor(m: seq<bool>, length: nat, length': nat, m': seq<bool>) {
    if length' > length
    then NewSectors(length, length' - length) >= 0 && m' == Take(m, NewSectors(length, length' - length))
    else m' == m
  }

  lemma PatchedBytes(c: seq<Byte>, data: seq<Byte>, offset: nat)
    ensures var c', written := Patched(c, data, offset), |Fitting(c, data, offset)|;
            && written == Clipped(|c|, |data|, offset) && |c'| == |c|
            && forall p | 0 <= p < |c'| :: c'[p] == if offset <= p < offset + written then data[p - offset] else c[p]
  {
  }

  lemma IdealWrites(c: seq<Byte>, m: seq<bool>, data: seq<Byte>, offset: nat)
    ensures var (c', m', written) := IdealWrite(c, m, false, data, offset);
            WritesTo(c, CountFree(m), data, offset, c', written) && TakesFor(m, |c|, |c'|, m')
  {
    hide NewSectors, CountFree, Take, Patched, Fitting, Written;
    var end := offset + |data|;
    if end > |c| {
      NewSectorsExact(|c|, end - |c|);
      if NewSectors(|c|, end - |c|) > CountFree(m) {
        PatchedBytes(c, data, offset);
      }
    }
  }

  /** Every offset that a read looks up has a place in the tables: the first one, and the end of the file if that is
      reached with bytes still to go. */
  predicate Reachable(length: nat, size: int, offset: nat) {
    size > 0 ==> offset < MAX_FILE && (offset + size <= length || length < MAX_FILE)
  }

  lemma ReachableFirst(length: nat, size: int, offset: nat)
    requires Reachable(length, size, offset)
    ensures size > 0 ==> offset < MAX_FILE
  {
  }

  lemma ReachableNext(length: nat, size: int, offset: nat, at: nat)
    requires Reachable(length, size, offset) && offset < at <= length <= MAX_FILE && at < offset + size
    ensures at < MAX_FILE
  {
  }

  /** What a read that has collected DONE and has LEFT bytes to go from AT on will return. */
  ghost function Pending(done: seq<Byte>, c: seq<Byte>, at: nat, left: int): seq<Byte> {
    done + Slice(c, at, left)
  }

  lemma PendingStart(c: seq<Byte>, at: nat, left: int)
    ensures Pending([], c, at, left) == Slice(c, at, left)
  {
  }

  lemma PendingStep(done: seq<Byte>, piece: seq<Byte>, c: seq<Byte>, at: nat, left: int)
    requires at + |piece| <= |c| && |piece| <= left
    requires piece == c[at..at + |piece|]
    ensures Pending(done, c, at, left) == Pending(done + piece, c, at + |piece|, left - |piece|)
  {
    assert Slice(c, at, left) == piece + Slice(c, at + |piece|, left - |piece|);
  }

  lemma PendingNone(done: seq<Byte>, c: seq<Byte>, at: nat, left: int)
    requires left <= 0 || |c| <= at
    ensures Pending(done, c, at, left) == done
  {
  }

  /** What a write makes of a file's bytes and of the free map, and how much it writes. */
  function IdealWrite(c: seq<Byte>, m: seq<bool>, denied: bool, data: seq<Byte>, offset: nat)
    : (seq<Byte>, seq<bool>, nat)
  {
    if denied then
      (c, m, 0)
    else if offset + |data| <= |c| then
      (Written(c, data, offset), m, |data|)
    else
      var need := NewSectors(|c|, offset + |data| - |c|);
      if 0 <= need <= CountFree(m) then
        (Written(c, data, offset), Take(m, need), |data|)
      else
        (Patched(c, data, offset), m, |Fitting(c, data, offset)|)
  }

  /** Whether an inode with LENGTH bytes can be created, and the free map afterwards: a failure for lack of room loses
      the sector that was to be the first with data, unless three sectors were not free to begin with. */
  function IdealInode(m: seq<bool>, length: nat): (r: (bool, seq<bool>))
    ensures |r.1| == |m|
  {
    if 3 + NewSectors(0, length) <= CountFree(m) then (true, TakeNeeded(m, length))
    else if CountFree(m) >= 3 then (false, ThirdLost(m))
    else (false, m)
  }

  function TakeNeeded(m: seq<bool>, length: nat): (r: seq<bool>)
    ensures |r| == |m|
  {
    NewSectorsExact(0, length);
    Take(m, 3 + NewSectors(0, length))
  }

  function ThirdLost(m: seq<bool>): (r: seq<bool>)
    requires CountFree(m) >= 3
    ensures |r| == |m|
  {
    CountTake(m, 2);
    FirstFreeExists(Take(m, 2));
    m[FirstFree(Take(m, 2)) := true]
  }

  /** The sector of a new file of LENGTH bytes, if it can be created, and the free map afterwards. */
  function IdealNew(m: seq<bool>, length: nat): (r: (Option<nat>, seq<bool>))
    ensures |r.1| == |m|
    ensures r.0.Some? ==> r.0.value == FirstFree(m) < |m|
  {
    FirstFreeExists(m);
    if CountFree(m) == 0 then (None, m)
    else
      var s := FirstFree(m);
      var (ok, m') := IdealInode(Take(m, 1), length);
      if ok then (Some(s), m') else (None, m'[s := false])
  }

  /** Bytes of the next step of a transfer: up to the end of the request, the file and the sector. */
  function ChunkSize(length: nat, left: int, at: nat): (chunk: int)
    ensures chunk <= left && at + chunk <= length && at % SECTOR_SIZE + chunk <= SECTOR_SIZE
    ensures chunk <= 0 ==> left <= 0 || length <= at
  {
    var inodeLeft := length - at;
    var sectorLeft := SECTOR_SIZE - at % SECTOR_SIZE;
    var minLeft := if inodeLeft < sectorLeft then inodeLeft else sectorLeft;
    if left < minLeft then left else minLeft
  }

  /** N bytes are whole sectors. */
  predicate Whole(n: nat) {
    n % SECTOR_SIZE == 0
  }

  lemma WholeChunk(length: nat, left: nat, at: nat)
    requires Whole(length) && Whole(left) && Whole(at)
    ensures var chunk := ChunkSize(length, left, at);
            chunk > 0 ==> chunk == SECTOR_SIZE && Whole(at + chunk) && left >= chunk && Whole(left - chunk)
  {
  }

  /** A write of a whole file goes sector by sector, and only the last part may not fill one. */
  lemma AlignedChunk(length: nat, at: nat, sh: Shape)
    requires Whole(at) && at < length <= SECTOR_SIZE * |sh.secs|
    ensures var chunk, t := ChunkSize(length, length - at, at), TailOf(length, sh);
            at % SECTOR_SIZE == 0 &&
            (|| (chunk == SECTOR_SIZE && Whole(at + chunk))
             || (at + chunk == length && 0 < chunk == t.1 && sh.secs[at / SECTOR_SIZE] == t.0))
  {
  }

  /** Every offset that a write looks up has a place in the tables, before and after the file grows. */
  predicate Writable(length: nat, free: nat, denied: bool, size: nat, offset: nat) {
    || denied || offset + size <= MAX_FILE
    || (length < offset + size && NewSectors(length, offset + size - length) > free && Reachable(length, size, offset))
  }

  /** Contents and free map after the file grew as far as a write needs and it can. */
  ghost predicate Made(c: seq<Byte>, m: seq<bool>, size: nat, offset: nat, c1: seq<Byte>, m1: seq<bool>) {
    if |c| < offset + size && 0 <= NewSectors(|c|, offset + size - |c|) <= CountFree(m)
    then c1 == c + Zeros(offset + size - |c|) && m1 == Take(m, NewSectors(|c|, offset + size - |c|))
    else c1 == c && m1 == m
  }

  lemma WritableFirst(length: nat, free: nat, size: nat, offset: nat)
    requires Writable(length, free, false, size, offset)
    ensures length < offset + size ==>
              offset + size <= MAX_FILE || NewSectors(length, offset + size - length) > free
  {
  }

  lemma WritableThen(c: seq<Byte>, m: seq<bool>, size: nat, offset: nat, c1: seq<Byte>, m1: seq<bool>)
    requires Writable(|c|, CountFree(m), false, size, offset) && Made(c, m, size, offset, c1, m1) && |c1| <= MAX_FILE
    ensures Reachable(|c1|, size, offset)
    ensures Whole(|c|) && Whole(size) && Whole(offset) ==> Whole(|c1|)
  {
    hide NewSectors;
  }

  lemma IdealMade(c: seq<Byte>, m: seq<bool>, data: seq<Byte>, offset: nat, c1: seq<Byte>, m1: seq<bool>)
    requires Made(c, m, |data|, offset, c1, m1)
    ensures (Patched(c1, data, offset), m1, |Fitting(c1, data, offset)|) == IdealWrite(c, m, false, data, offset)
  {
    hide NewSectors, Written, Patched, Fitting, Take, CountFree;
    PatchedIsWritten(c, data, offset);
    NewSectorsExact(|c|, if offset + |data| > |c| then offset + |data| - |c| else 0);
  }

  lemma FileHolds(v: View, f: SectorNo)
    requires Ok(v) && f in v.inodes
    ensures f in v.shape && v.inodes[f].length <= SECTOR_SIZE * |v.shape[f].secs|
  {
  }

  lemma AlignedStep(length: nat, at: nat, sh: Shape, sector: int, l: Log, l1: Log, l2: Log)
    requires Whole(at) && at < length <= SECTOR_SIZE * |sh.secs|
    requires sector == if at < SECTOR_SIZE * |sh.secs| then sh.secs[at / SECTOR_SIZE] else -1
    requires var t := TailOf(length, sh); CoveringBut(l, l1, t.0, t.1)
    requires var chunk := ChunkSize(length, length - at, at);
             && chunk >= 0 && (chunk == SECTOR_SIZE ==> Covering(l1, l2))
             && (at % SECTOR_SIZE == 0 && sector >= 0 ==> CoveringBut(l1, l2, sector, chunk))
    ensures var t := TailOf(length, sh); CoveringBut(l, l2, t.0, t.1)
    ensures var next := at + ChunkSize(length, length - at, at); next < length ==> Whole(next)
  {
    AlignedChunk(length, at, sh);
    var t := TailOf(length, sh);
    CoveringStill(l1, l2, t.0, t.1);
    hide TailOf, ChunkSize, Whole;
  }

  /** What is known of the log L' of a write of SIZE bytes at OFFSET, half way. */
  ghost predicate Aligned(length: nat, size: nat, offset: nat, sh: Shape, written: nat, l: Log, l': Log) {
    && written <= size
    && (Whole(length) && Whole(size) && Whole(offset) ==>
          Whole(offset + written) && Whole(size - written) && Covering(l, l'))
    && (offset == 0 && size == length ==>
          && (var t := TailOf(length, sh); CoveringBut(l, l', t.0, t.1))
          && (written < size ==> Whole(written)))
  }

  lemma AlignedStart(length: nat, size: nat, offset: nat, sh: Shape, l: Log)
    ensures Aligned(length, size, offset, sh, 0, l, l)
  {
    LoggedNone([], l);
  }

  lemma AlignedNext(length: nat, size: nat, offset: nat, sh: Shape, written: nat, sector: int, l: Log, l1: Log, l2: Log)
    requires Aligned(length, size, offset, sh, written, l, l1) && offset + written < length <= SECTOR_SIZE * |sh.secs|
    requires var at := offset + written;
             sector == if at < SECTOR_SIZE * |sh.secs| then sh.secs[at / SECTOR_SIZE] else -1
    requires var at := offset + written;
             var chunk := ChunkSize(length, size - written, at);
             && chunk > 0 && (chunk == SECTOR_SIZE ==> Covering(l1, l2))
             && (at % SECTOR_SIZE == 0 && sector >= 0 ==> CoveringBut(l1, l2, sector, chunk))
    requires Covering(l, l1) && Covering(l1, l2) ==> Covering(l, l2)
    ensures Aligned(length, size, offset, sh, written + ChunkSize(length, size - written, offset + written), l, l2)
  {
    hide TailOf, ChunkSize, Covering, CoveringBut, Whole;
    var at := offset + written;
    if Whole(length) && Whole(size) && Whole(offset) {
      WholeChunk(length, size - written, at);
    }
    if offset == 0 && size == length {
      AlignedStep(length, at, sh, sector, l, l1, l2);
    }
  }

  lemma AlignedDone(length: nat, size: nat, offset: nat, sh: Shape, written: nat, l: Log, l': Log)
    requires Aligned(length, size, offset, sh, written, l, l')
    ensures Whole(length) && Whole(size) && Whole(offset) ==> Covering(l, l')
    ensures offset == 0 && size == length ==> var t := TailOf(length, sh); CoveringBut(l, l', t.0, t.1)
  {
  }

  /** What is left of a write of DATA at OFFSET leads from contents C where the whole leads from C0. */
  ghost predicate Halfway(c: seq<Byte>, c0: seq<Byte>, data: seq<Byte>, offset: nat, written: nat) {
    && written <= |data|
    && Patched(c, data[written..], offset + written) == Patched(c0, data, offset)
    && |Fitting(c, data[written..], offset + written)| + written == |Fitting(c0, data, offset)|
  }

  lemma HalfwayStart(c: seq<Byte>, data: seq<Byte>, offset: nat)
    ensures Halfway(c, c, data, offset, 0)
  {
    assert data[0..] == data;
  }

  lemma HalfwayNext(c: seq<Byte>, c': seq<Byte>, c0: seq<Byte>, data: seq<Byte>, offset: nat, written: nat, m: nat)
    requires Halfway(c, c0, data, offset, written) && written + m <= |data| && offset + written + m <= |c|
    requires c' == Overlay(c, offset + written, data[written..written + m])
    ensures Halfway(c', c0, data, offset, written + m)
  {
    hide Patched, Fitting, Overlay;
    PatchedNext(c, c', data, written, offset + written, m);
  }

  lemma HalfwayDone(c: seq<Byte>, c0: seq<Byte>, data: seq<Byte>, offset: nat, written: nat)
    requires Halfway(c, c0, data, offset, written) && (written == |data| || |c| <= offset + written)
    ensures c == Patched(c0, data, offset) && written == |Fitting(c0, data, offset)|
  {
    hide Patched, Fitting;
    PatchedNone(c, data[written..], offset + written);
  }

  lemma WithinReach(length: nat)
    requires length <= MAX_FILE
    ensures Reachable(length, length, 0)
  {
  }

  lemma PatchedWhole(c: seq<Byte>, data: seq<Byte>)
    requires |data| == |c|
    ensures Patched(c, data, 0) == data && |Fitting(c, data, 0)| == |data|
  {
  }

  lemma NothingElse(v: View, f: SectorNo)
    requires Ok(v)
    ensures RestSame(v, v, f)
  {
  }

  lemma RestAll(v: View, v1: View, v2: View)
    requires Ok(v) && Ok(v1) && Ok(v2)
    requires (forall f: SectorNo :: RestSame(v, v1, f)) && (forall f: SectorNo :: RestSame(v1, v2, f))
    ensures forall f: SectorNo :: RestSame(v, v2, f)
  {
    hide Ok, RestSame;
    forall f: SectorNo
      ensures RestSame(v, v2, f)
    {
      RestSameTrans(v, v1, v2, f);
    }
  }

  lemma TakenRemarks(v: View, m: seq<bool>, avail: seq<SectorNo>)
    requires Ok(v) && Taken(v.freeMap, m, avail)
    ensures Remarks(v, m) && GivenTo(v.(freeMap := m), avail)
  {
    hide FileOk;
  }

  /** AVAIL are sectors that are marked but in no slot, in increasing order. */
  ghost predicate GivenTo(v: View, avail: seq<SectorNo>) {
    && |v.freeMap| == |v.disk|
    && (forall j | 0 <= j < |avail| ::
          0 < avail[j] < |v.disk| && avail[j] !in v.owner && v.freeMap[avail[j]])
    && (forall i, j | 0 <= i < j < |avail| :: avail[i] < avail[j])
  }

  lemma GivenStart(v: View, st: Start)
    requires GivenTo(v, st.avail) && st.disk == v.disk && st.owner == v.owner
    ensures Given(st, v.freeMap)
  {
  }

  lemma MarkedPlace(v: View, m: seq<bool>)
    requires MapPlaced(v) && |m| == |v.freeMap|
    ensures MapPlaced(v.(freeMap := m)) && MapTail(v.(freeMap := m), true) == MapTail(v, true)
  {
  }

  lemma OnlyTaken(m: seq<bool>, m': seq<bool>, avail: seq<SectorNo>)
    requires |avail| == 1 && Taken(m, m', avail) && CountFree(m) > 0 && m' == Take(m, 1)
    ensures avail[0] == FirstFree(m) && m' == m[avail[0] := true]
  {
    TakeOne(m);
    hide Take, CountFree, FirstFree;
    var s := avail[0];
    assert s in avail;
    assert m'[s] && !m[s];
  }

  /** A change of file F alone, with the map's marks as they were, keeps the map saved. */
  lemma StaysValid(v: View, w: View, f: SectorNo, mapOpen: bool)
    requires Ok(v) && Ok(w) && OthersSame(v, w, f) && w.freeMap == v.freeMap
    requires mapOpen ==> f != FREE_MAP_SECTOR && MapPlaced(v) && Saved(v)
    ensures RestSame(v, w, f) && MapTail(w, mapOpen) == MapTail(v, mapOpen)
    ensures mapOpen ==> MapPlaced(w) && Saved(w)
  {
    hide Ok, ContentsOf, OthersSame, RestSame, Saved, MapPlaced;
    OthersRest(v, w, f);
    if mapOpen {
      SavedKept(v, w, f);
      PlacedKept(v, w, f);
    }
  }

  lemma ThreeCounts(m: seq<bool>)
    ensures CountFree(m) >= 1 ==> CountFree(Take(m, 1)) == CountFree(m) - 1
    ensures CountFree(m) >= 2 ==> CountFree(Take(Take(m, 1), 1)) == CountFree(m) - 2
  {
    hide CountFree, Take;
    if CountFree(m) >= 1 {
      CountTake(m, 1);
      if CountFree(m) >= 2 {
        CountTake(Take(m, 1), 1);
      }
    }
  }

  lemma ThreeMarked(m: seq<bool>)
    requires CountFree(m) >= 3
    ensures var m1, m2 := Take(m, 1), Take(Take(m, 1), 1);
            && MarksOne(m, m1) && MarksOne(m1, m2) && MarksOne(m2, Take(m, 3))
            && Take(m2, 1) == Take(m, 3) && m2 == Take(m, 2)
  {
    hide CountFree, Take, FirstFree;
    ThreeCounts(m);
    MarkedOne(m);
    MarkedOne(Take(m, 1));
    MarkedOne(Take(Take(m, 1), 1));
    TakeTake(m, 1, 1);
    TakeTake(m, 2, 1);
  }

  /** M' is M with its first free sector marked. */
  ghost predicate MarksOne(m: seq<bool>, m': seq<bool>) {
    FirstFree(m) < |m| && !m[FirstFree(m)] && m' == m[FirstFree(m) := true]
  }

  lemma MarkedOne(m: seq<bool>)
    requires CountFree(m) > 0
    ensures MarksOne(m, Take(m, 1))
  {
    TakeOne(m);
    hide CountFree, Take;
  }

  lemma ThreeSet(m: seq<bool>, m1: seq<bool>, m2: seq<bool>, m3: seq<bool>)
    requires MarksOne(m, m1) && MarksOne(m1, m2) && MarksOne(m2, m3)
    ensures var (a, b, c) := (FirstFree(m), FirstFree(m1), FirstFree(m2));
            && a < |m| && b < |m| && c < |m| && |m3| == |m|
            && !m[a] && !m[b] && !m[c] && a != b && b != c && c != a && m3[a] && m3[b] && m3[c]
            && m3[b := false][a := false] == m[c := true]
  {
    var (a, b, c) := (FirstFree(m), FirstFree(m1), FirstFree(m2));
    assert m1 == m[a := true] && m2 == m1[b := true] && m3 == m2[c := true] && !m[a] && !m1[b] && !m2[c];
    hide FirstFree, MarksOne;
    SetAndReset(m, m1, m2, m3, a, b, c);
  }

  lemma SetAndReset(m: seq<bool>, m1: seq<bool>, m2: seq<bool>, m3: seq<bool>, a: nat, b: nat, c: nat)
    requires a < |m| && !m[a] && m1 == m[a := true] && b < |m1| && !m1[b] && m2 == m1[b := true]
    requires c < |m2| && !m2[c] && m3 == m2[c := true]
    ensures |m3| == |m| && !m[b] && !m[c] && a != b && b != c && c != a && m3[a] && m3[b] && m3[c]
    ensures m3[b := false][a := false] == m[c := true]
  {
    assert forall i | 0 <= i < |m| :: m3[i] == (m[i] || i == a || i == b || i == c);
    var x, y := m3[b := false][a := false], m[c := true];
    assert forall i | 0 <= i < |m| :: x[i] == if i == a || i == b then false else m3[i];
    assert forall i | 0 <= i < |m| :: x[i] == y[i];
  }

  lemma ThreeTaken(m: seq<bool>, owner: map<SectorNo, Slot>, root: SectorNo, ind: SectorNo, dir: SectorNo)
    requires CountFree(m) >= 3 && root !in owner && ind !in owner && dir !in owner
    requires 1 < root < |m| && 1 < ind < |m| && 1 < dir < |m|
    requires root == FirstFree(m) && ind == FirstFree(Take(m, 1)) && dir == FirstFree(Take(Take(m, 1), 1))
    ensures Fresh3(Take(Take(Take(m, 1), 1), 1), owner, root, ind, dir)
    ensures Take(Take(Take(m, 1), 1), 1) == Take(m, 3) && !m[root] && !m[ind] && !m[dir]
    ensures Take(m, 3)[ind := false][root := false] == ThirdLost(m)
  {
    hide CountFree, Take, FirstFree, MarksOne;
    ThreeMarked(m);
    ThreeSet(m, Take(m, 1), Take(Take(m, 1), 1), Take(m, 3));
  }

  lemma TakeKeeps(m: seq<bool>, n: nat, s: nat)
    requires s < |m| && m[s]
    ensures Take(m, n)[s]
  {
    hide CountFree;
  }

  lemma InodeCounts(m: seq<bool>, length: nat)
    ensures 0 <= NewSectors(0, length)
    ensures 3 <= CountFree(m) ==> CountFree(Take(m, 3)) == CountFree(m) - 3
    ensures Take(Take(m, 3), NewSectors(0, length)) == TakeNeeded(m, length)
    ensures IdealInode(m, length)
         == if 3 + NewSectors(0, length) <= CountFree(m) then (true, TakeNeeded(m, length))
            else if CountFree(m) >= 3 then (false, ThirdLost(m))
            else (false, m)
  {
    hide CountFree, Take, NewSectors, FirstFree;
    NewSectorsExact(0, length);
    TakeTake(m, 3, NewSectors(0, length));
    if CountFree(m) >= 3 {
      CountTake(m, 3);
    }
  }

  /** What creating an inode leaves free. */
  lemma InodeFree(m: seq<bool>, length: nat)
    ensures var (ok, m') := IdealInode(m, length);
            && (ok <==> 3 + NewSectors(0, length) <= CountFree(m))
            && (ok ==> NewSectors(0, length) >= 0 && m' == Take(m, 3 + NewSectors(0, length)))
            && (!ok ==> CountFree(m') == CountFree(m) - if CountFree(m) >= 3 then 1 else 0)
  {
    NewSectorsExact(0, length);
    hide Take, NewSectors, FirstFree, CountFree;
    if CountFree(m) >= 3 {
      LostOne(m);
    }
  }

  lemma LostOne(m: seq<bool>)
    requires CountFree(m) >= 3
    ensures CountFree(ThirdLost(m)) == CountFree(m) - 1
  {
    hide Take, CountFree, FirstFree, MarksOne, ThirdLost;
    ThreeMarked(m);
    ThreeSet(m, Take(m, 1), Take(Take(m, 1), 1), Take(m, 3));
    ThirdIs(m);
    CountMark(m, FirstFree(Take(m, 2)));
  }

  lemma ThirdIs(m: seq<bool>)
    requires CountFree(m) >= 3
    ensures FirstFree(Take(m, 2)) < |m| && ThirdLost(m) == m[FirstFree(Take(m, 2)) := true]
  {
    CountTake(m, 2);
    FirstFreeExists(Take(m, 2));
  }

  /** What creating a file leaves free. */
  lemma NewFree(m: seq<bool>, length: nat)
    ensures var (r, m') := IdealNew(m, length);
            && (r.Some? <==> 4 + NewSectors(0, length) <= CountFree(m))
            && (r.Some? ==> NewSectors(0, length) >= 0 && m' == Take(m, 4 + NewSectors(0, length)))
            && (r.None? ==> CountFree(m') == CountFree(m) - if CountFree(m) >= 4 then 1 else 0)
  {
    hide Take, NewSectors, FirstFree, CountFree, IdealInode, IdealNew;
    NewSectorsExact(0, length);
    NewCounts(m, length);
    if CountFree(m) > 0 {
      InodeFree(Take(m, 1), length);
      TakeTake(m, 1, 3 + NewSectors(0, length));
      Unmarked(IdealInode(Take(m, 1), length).1, FirstFree(m));
    }
  }

  lemma Unmarked(m: seq<bool>, i: nat)
    requires i < |m| && m[i]
    ensures CountFree(m[i := false]) == CountFree(m) + 1
  {
    CountMark(m[i := false], i);
    assert m[i := false][i := true] == m;
  }

  lemma NewCounts(m: seq<bool>, length: nat)
    ensures CountFree(m) > 0 ==> FirstFree(m) < |m| && CountFree(Take(m, 1)) == CountFree(m) - 1
    ensures IdealNew(m, length)
         == if CountFree(m) == 0 then (None, m)
            else
              var (ok, m') := IdealInode(Take(m, 1), length);
              if ok then (Some(FirstFree(m)), m') else (None, m'[FirstFree(m) := false])
    ensures CountFree(m) > 0 ==> Take(m, 1)[FirstFree(m)] && IdealInode(Take(m, 1), length).1[FirstFree(m)]
  {
    hide CountFree, Take, NewSectors, FirstFree, IdealInode;
    FirstFreeExists(m);
    if CountFree(m) > 0 {
      CountTake(m, 1);
      TakeOne(m);
      MarksStay(Take(m, 1), length, FirstFree(m));
    }
  }

  lemma MarksStay(m: seq<bool>, length: nat, s: nat)
    requires s < |m| && m[s]
    ensures IdealInode(m, length).1[s]
  {
    hide CountFree, NewSectors, FirstFree;
  }

  /** The free map's file, being open, is not the one that is new. */
  lemma NotTheMap(v: View, sector: SectorNo, mapOpen: bool)
    requires sector !in v.inodes && (mapOpen ==> MapPlaced(v))
    ensures mapOpen ==> sector != FREE_MAP_SECTOR
  {
  }

  lemma PlacedIf(v: View)
    requires Ok(v) && Saved(v)
    ensures MapPlaced(v)
  {
  }

  lemma HeaderOwned(v: View, f: SectorNo)
    requires Ok(v) && f in v.inodes
    ensures f < |v.disk| && f in v.owner && v.owner[f].Header?
  {
  }

  lemma NotInUse(v: View, s: SectorNo)
    requires Ok(v) && s !in v.owner
    ensures s !in v.inodes
  {
  }

  lemma UndoneRest(v: View, w: View, sector: SectorNo)
    requires Ok(v) && Ok(w) && w.inodes == v.inodes && w.shape == v.shape && sector !in v.inodes
    requires OthersSame(v, w, sector)
    ensures forall f: SectorNo :: RestSame(v, w, f)
  {
    hide Ok, ContentsOf;
  }

  lemma NoneElse(v: View, w: View, sector: SectorNo)
    requires Ok(v) && Ok(w) && w.inodes == v.inodes && sector !in v.inodes && RestSame(v, w, sector)
    ensures forall f: SectorNo :: RestSame(v, w, f)
  {
    hide Ok, ContentsOf;
  }

  lemma MapMarked(v: View)
    requires Ok(v)
    ensures FREE_MAP_SECTOR < |v.freeMap| && v.freeMap[FREE_MAP_SECTOR]
  {
  }

  lemma FirstFreeOf(m: seq<bool>)
    requires FirstFree(m) < |m|
    ensures !m[FirstFree(m)]
  {
  }

  lemma OneBack(m: seq<bool>, root: SectorNo)
    requires CountFree(m) >= 1 && root == FirstFree(m)
    ensures root < |m| && Take(m, 1)[root := false] == m
  {
    TakeOne(m);
    FirstFreeOf(m);
    assert m[root := true][root := false] == m;
  }

  lemma TwoBack(m: seq<bool>, root: SectorNo, ind: SectorNo)
    requires CountFree(m) >= 2 && root == FirstFree(m) && ind == FirstFree(Take(m, 1))
    ensures root < |m| && ind < |m| && Take(Take(m, 1), 1)[root := false][ind := false] == m
  {
    hide CountFree, Take, FirstFree;
    ThreeCounts(m);
    TakeOne(m);
    TakeOne(Take(m, 1));
    FirstFreeOf(m);
    FirstFreeOf(Take(m, 1));
    assert m[root := true][ind := true][root := false][ind := false] == m;
  }

  class Volume {
    var disk: seq<Sector>
    var freeMap: seq<bool>
    /** What is in the unused bits of the free map's last word. */
    var pad: seq<bool>
    /** Whether the free map's file is open; until then the map is only in memory. */
    var mapOpen: bool
    var inodes: map<SectorNo, InodeData>
    ghost var shape: map<SectorNo, Shape>
    ghost var owner: map<SectorNo, Slot>
    ghost var log: Log

    ghost function Now(): View
      reads this
    {
      View(disk, freeMap, inodes, shape, owner)
    }

    /** The files are in order, and there is a place to save the free map. */
    ghost predicate Sound()
      reads this
    {
      Ok(Now()) && |pad| == Unused(|freeMap|) && (mapOpen ==> MapPlaced(Now()))
    }

    /** Moreover the free map is saved. */
    ghost predicate Valid()
      reads this
    {
      Sound() && (mapOpen ==> Saved(Now()))
    }

    ghost function Tail(): (t: (nat, nat))
      reads this
    {
      MapTail(Now(), mapOpen)
    }

    ghost function Contents(f: SectorNo): (c: seq<Byte>)
      reads this
      requires Ok(Now()) && f in inodes
      ensures |c| == inodes[f].length
    {
      ContentsOf(Now(), f)
    }

    lemma LengthFits(f: SectorNo)
      requires Ok(Now()) && f in inodes
      ensures |Contents(f)| == inodes[f].length <= MAX_FILE
    {
    }

    /** A freshly initialized volume: only the two system inodes' sectors are taken. */
    constructor (sectors: nat, junk: seq<bool>)
      requires 2 <= sectors < 0x1_0000_0000 && |junk| == Unused(sectors)
      ensures Valid() && inodes == map[] && owner == map[] && !mapOpen
      ensures |freeMap| == sectors
      ensures forall s | 0 <= s < sectors :: freeMap[s] == (s == FREE_MAP_SECTOR || s == ROOT_DIR_SECTOR)
    {
      disk := seq(sectors, _ => ZERO_SECTOR);
      freeMap := seq(sectors, s => s == FREE_MAP_SECTOR || s == ROOT_DIR_SECTOR);
      pad, mapOpen := junk, false;
      inodes := map[];
      shape := map[];
      owner := map[];
      log := [];
    }

    /** Copies BUF over the bytes of SECTOR from OFS on. */
    method CacheWrite(sector: SectorNo, buf: seq<Byte>, ofs: nat)
      requires sector < |disk| && ofs + |buf| <= SECTOR_SIZE
      modifies this`disk, this`log
      ensures disk == old(disk)[sector := Overlay(old(disk)[sector], ofs, buf)]
      ensures |buf| == SECTOR_SIZE ==> disk == old(disk)[sector := buf]
      ensures Logged(old(disk), old(log), disk, log)
      ensures |buf| == SECTOR_SIZE ==> Covering(old(log), log)
      ensures ofs == 0 && |buf| > 0 ==> CoveringBut(old(log), log, sector, |buf|)
    {
      hide Logged, Covering, CoveringBut;
      assert |buf| == SECTOR_SIZE ==> Overlay(disk[sector], ofs, buf) == buf;
      LoggedOne(disk, log, sector, ofs, buf);
      log := log + [Cache.Write(sector, ofs, buf)];
      disk := disk[sector := Overlay(disk[sector], ofs, buf)];
    }

    /** The sector that holds byte POS of file F, or -1. */
    method ByteToSector(f: SectorNo, pos: nat) returns (sector: int)
      requires Ok(Now()) && f in inodes && pos < MAX_FILE
      ensures sector == if pos < SECTOR_SIZE * |shape[f].secs| then shape[f].secs[pos / SECTOR_SIZE] else -1
    {
      var (dirIdx, indIdx) := IndicesFromOffset(pos);
      ghost var sh := shape[f];
      assert ENTRIES * indIdx + dirIdx == pos / SECTOR_SIZE;
      var table := EntryAt(disk[inodes[f].root], indIdx);
      assert table == Decode(disk[inodes[f].root])[indIdx] == Row(sh.tabs, 0)[indIdx];
      if table == 0 {
        return -1;
      }
      var s := EntryAt(disk[table], dirIdx);
      assert s == Decode(disk[sh.tabs[indIdx]])[dirIdx] == Row(sh.secs, indIdx)[dirIdx];
      if s == 0 {
        return -1;
      }
      return s;
    }

    /** Reads CHUNK bytes at AT, all within one sector. */
    method ReadChunk(f: SectorNo, at: nat, chunk: nat, sector: int) returns (piece: seq<Byte>)
      requires Ok(Now()) && f in inodes
      requires sector == if at < SECTOR_SIZE * |shape[f].secs| then shape[f].secs[at / SECTOR_SIZE] else -1
      requires at + chunk <= inodes[f].length && at % SECTOR_SIZE + chunk <= SECTOR_SIZE && 0 < chunk
      ensures |piece| == chunk && piece == Contents(f)[at..at + chunk]
    {
      hide Ok, ContentsOf;
      InFile(Now(), f, at);
      if sector == -1 {
        // Every byte below the length has a sector.
        assert false;
      }
      var ofs := at % SECTOR_SIZE;
      piece := disk[sector][ofs..ofs + chunk];
      SectorRead(Now(), f, at, chunk);
    }

    /** Reads up to SIZE bytes of file F from OFFSET on: exactly the slice of its contents.  The tables are consulted
        once more at the end of the file, and have no entry after those of the largest file. */
    method ReadAt(f: SectorNo, size: int, offset: nat) returns (buffer: seq<Byte>)
      requires Ok(Now()) && f in inodes && Reachable(inodes[f].length, size, offset)
      ensures buffer == Slice(Contents(f), offset, size)
      ensures |buffer| == Clipped(inodes[f].length, size, offset)
      ensures forall i | 0 <= i < |buffer| :: buffer[i] == Contents(f)[offset + i]
    {
      hide *;
      SliceIs(Contents(f), offset, size);
      ghost var c := Contents(f);
      buffer := [];
      PendingStart(c, offset, size);
      LengthFits(f);
      ReachableFirst(|c|, size, offset);
      var left, at := size, offset;
      while left > 0
        invariant 0 <= at && at + left == offset + size
        invariant left > 0 ==> at < MAX_FILE
        invariant Pending(buffer, c, at, left) == Slice(c, offset, size)
      {
        var sector := ByteToSector(f, at);
        var chunk := ChunkSize(inodes[f].length, left, at);
        if chunk <= 0 {
          break;
        }
        if at + chunk < offset + size {
          ReachableNext(|c|, size, offset, at + chunk);
        }
        var piece := ReadChunk(f, at, chunk, sector);
        PendingStep(buffer, piece, c, at, left);
        buffer := buffer + piece;
        left := left - chunk;
        at := at + chunk;
      }
      PendingNone(buffer, c, at, left);
    }

    /** Marks the first N free sectors as taken. */
    method TakeFree(n: nat) returns (avail: seq<SectorNo>)
      requires MapsOk(disk, freeMap, owner) && n <= CountFree(freeMap)
      modifies this`freeMap
      ensures MapsOk(disk, freeMap, owner)
      ensures |avail| == n && Taken(old(freeMap), freeMap, avail)
      ensures freeMap == Take(old(freeMap), n)
    {
      hide CountFree, Take, Taking;
      ghost var m := freeMap;
      avail := [];
      var i := 0;
      TakingStart(m, n);
      while i < |freeMap| && |avail| < n
        invariant |freeMap| == |m| && Taking(m, freeMap, avail, n, i)
      {
        TakingStep(m, freeMap, avail, n, i);
        if !freeMap[i] {
          freeMap := freeMap[i := true];
          avail := avail + [i];
        }
        i := i + 1;
      }
      TakingDone(m, freeMap, avail, n, i);
    }

    /** Enters the sectors AVAIL into the tables of file F: the extension loop, from the last entry
        in use (DIR0, IND0) on. */
    method FillTables(f: SectorNo, root: SectorNo, dir0: nat, ind0: nat, avail: seq<SectorNo>, ghost n: nat,
                      ghost st: Start)
      returns (ghost sh: Shape)
      requires MapsOk(disk, freeMap, owner) && st.disk == disk && st.owner == owner && st.f == f && st.root == root
               && st.avail == avail
      requires Mapped(disk, root, st.sh) && Owned(owner, f, root, st.sh)
      requires dir0 == (|st.sh.secs| - 1) % ENTRIES && ind0 == |st.sh.tabs| - 1
      requires Needs(st, n) && Given(st, freeMap)
      modifies this`disk, this`owner, this`log
      ensures Logged(old(disk), old(log), disk, log) && Covering(old(log), log)
      ensures MapsOk(disk, freeMap, owner)
      ensures Grown(st, disk, owner)
      ensures Mapped(disk, root, sh) && Owned(owner, f, root, sh) && Appended(st, disk, sh)
      ensures |sh.secs| == n
    {
      hide *;
      ExtendStart(st, freeMap);
      ExtendIndexStart(st, dir0, ind0, n);
      var dirIdx, indIdx := dir0, ind0;
      var ind := Decode(disk[root]);
      var dir := Decode(disk[ind[indIdx]]);
      sh := st.sh;
      ghost var d0, l0 := disk, log;
      LoggedNone(d0, l0);
      var i := 0;
      while i < |avail|
        invariant Logged(d0, l0, disk, log) && Covering(l0, log)
        invariant Extending(st, disk, owner, sh, ind, dir, i)
        invariant ExtendIndex(st, sh, dirIdx, indIdx, i, n)
      {
        ExtendingFacts(st, disk, owner, sh, ind, dir, i);
        ExtendIndexStep(st, sh, dirIdx, indIdx, i, n);
        ghost var d1, l1 := disk, log;
        dirIdx := dirIdx + 1;
        if dirIdx == ENTRIES {
          ExtendTable(st, disk, owner, sh, ind, dir, i);
          CacheWrite(ind[indIdx], Encode(dir), 0);
          LoggedThen(d0, l0, d1, l1, disk, log);
          d1, l1 := disk, log;
          dirIdx := 0;
          indIdx := indIdx + 1;
          ind := ind[indIdx := avail[i]];
          owner := owner[avail[i] := Tab(f, indIdx)];
          sh := Shape(sh.tabs + [avail[i]], sh.secs);
          i := i + 1;
          dir := ZERO_TABLE;
        } else {
          ExtendData(st, disk, owner, sh, ind, dir, i);
        }
        dir := dir[dirIdx := avail[i]];
        CacheWrite(avail[i], ZERO_SECTOR, 0);
        LoggedThen(d0, l0, d1, l1, disk, log);
        owner := owner[avail[i] := Data(f, |sh.secs|)];
        sh := Shape(sh.tabs, sh.secs + [avail[i]]);
        i := i + 1;
      }
      ExtendingFacts(st, disk, owner, sh, ind, dir, i);
      ExtendIndexDone(st, sh, dirIdx, indIdx, i, n);
      ExtendDone(st, disk, owner, sh, ind, dir, i);
      ghost var d1, l1 := disk, log;
      CacheWrite(ind[indIdx], Encode(dir), 0);
      LoggedThen(d0, l0, d1, l1, disk, log);
      d1, l1 := disk, log;
      CacheWrite(root, Encode(ind), 0);
      LoggedThen(d0, l0, d1, l1, disk, log);
      MapsGrown(st, freeMap, disk, owner);
    }

    /** Lengthens file F by CNT bytes of zeros, or changes nothing because too few sectors are free.  The tables have
        no place for more than the largest file, and the free map's file keeps its size. */
    method ExtendFile(f: SectorNo, cnt: nat) returns (ok: bool)
      requires Valid() && f in inodes && (mapOpen ==> f != FREE_MAP_SECTOR)
      requires inodes[f].length + cnt <= MAX_FILE || NewSectors(inodes[f].length, cnt) > CountFree(freeMap)
      modifies this`disk, this`freeMap, this`inodes, this`shape, this`owner, this`log
      ensures Valid() && f in inodes && RestSame(old(Now()), Now(), f)
      ensures ok == (NewSectors(old(inodes[f].length), cnt) <= CountFree(old(freeMap)))
      ensures !ok ==> Now() == old(Now())
      ensures ok ==> inodes == old(inodes)[f := old(inodes[f]).(length := old(inodes[f]).length + cnt)]
      ensures ok ==> NewSectors(old(inodes[f].length), cnt) >= 0
      ensures ok ==> freeMap == Take(old(freeMap), NewSectors(old(inodes[f].length), cnt))
      ensures ok ==> old(shape[f]).tabs <= shape[f].tabs && old(shape[f]).secs <= shape[f].secs
      ensures ok ==> Contents(f) == old(Contents(f)) + Zeros(cnt)
      ensures Tail() == old(Tail()) && Tidy(old(disk), old(log), disk, log, Tail())
    {
      hide Ok, ContentsOf, RestSame, OthersSame, NewSectors, SectorsFor, TablesFor, CountFree, IndicesFromOffset, Tidy;
      hide Take, Saved, MapPlaced, MapTail;
      ghost var v, l := Now(), log;
      NothingElse(v, f);
      TidyNone(disk, log, Tail());
      OkFacts(v, f);
      var d := inodes[f];
      NewSectorsExact(d.length, cnt);
      var (dirIdx, indIdx) := IndicesFromOffset(d.length - 1);
      var newSectors := NewSectors(d.length, cnt);
      ok := newSectors <= CountFree(freeMap);
      if ok {
        if newSectors == 0 {
          TakeNone(freeMap);
          LengthenOnly(f, cnt);
        } else {
          var avail := TakeMarked(newSectors);
          ghost var v1, l1 := Now(), log;
          LengthenWith(f, cnt, dirIdx, indIdx, avail);
          TidyThen(v.disk, l, v1.disk, l1, disk, log, MapTail(v, mapOpen));
          RestSameTrans(v, v1, Now(), f);
          ContentsKept(v, v1, f);
        }
      }
    }

    /** Marks the first N free sectors and saves the map. */
    method TakeMarked(n: nat) returns (avail: seq<SectorNo>)
      requires Valid() && n <= CountFree(freeMap)
      modifies this`disk, this`freeMap, this`log
      ensures Valid() && OthersSame(old(Now()), Now(), FREE_MAP_SECTOR)
      ensures forall f: SectorNo :: RestSame(old(Now()), Now(), f)
      ensures !mapOpen && FREE_MAP_SECTOR in inodes ==> Contents(FREE_MAP_SECTOR) == old(Contents(FREE_MAP_SECTOR))
      ensures |avail| == n && Taken(old(freeMap), freeMap, avail) && freeMap == Take(old(freeMap), n)
      ensures GivenTo(Now(), avail)
      ensures Tidy(old(disk), old(log), disk, log, Tail()) && Tail() == old(Tail())
    {
      hide Ok, ContentsOf, RestSame, OthersSame, CountFree, Take, Tidy, Saved, MapPlaced, MapTail, Taken;
      ghost var v := Now();
      OkMaps(v);
      avail := TakeFree(n);
      TakenRemarks(v, freeMap, avail);
      SaveMap(v);
      OkMaps(Now());
    }

    /** Writes the free map to its file, if that is open.  V is the volume before its marks changed. */
    method SaveMap(ghost v: View)
      requires Ok(v) && Now() == v.(freeMap := freeMap) && Remarks(v, freeMap)
      requires |pad| == Unused(|freeMap|) && (mapOpen ==> MapPlaced(v))
      modifies this`disk, this`log
      ensures Valid() && OthersSame(v, Now(), FREE_MAP_SECTOR)
      ensures forall f: SectorNo :: RestSame(v, Now(), f)
      ensures !mapOpen && FREE_MAP_SECTOR in inodes ==> Contents(FREE_MAP_SECTOR) == ContentsOf(v, FREE_MAP_SECTOR)
      ensures Tidy(old(disk), old(log), disk, log, Tail()) && Tail() == MapTail(v, mapOpen)
    {
      hide Ok, ContentsOf, RestSame, OthersSame, Tidy;
      Remarked(v, freeMap, FREE_MAP_SECTOR);
      hide Remarks;
      ghost var w := Now();
      TidyNone(disk, log, Tail());
      hide Saved, MapPlaced;
      if mapOpen {
        MarkedPlace(v, freeMap);
        var ok := WriteMap();
        if !ok {
          // The file has just the size of the map.
          assert false;
        }
      } else {
        NothingChanged(w, FREE_MAP_SECTOR);
      }
      OthersSameTrans(v, w, Now(), FREE_MAP_SECTOR);
      forall f: SectorNo
        ensures RestSame(v, Now(), f)
      {
        MapRest(v, Now(), f);
      }
    }

    /** Writes the free map over the contents of its file: all of it, without growth. */
    method WriteMap() returns (ok: bool)
      requires Sound() && mapOpen
      modifies this`disk, this`log
      ensures ok && Valid() && OthersSame(old(Now()), Now(), FREE_MAP_SECTOR)
      ensures Tidy(old(disk), old(log), disk, log, Tail()) && Tail() == old(Tail())
    {
      hide Ok, ContentsOf, OthersSame, Patched, Fitting, Logged, CoveringBut, TailOf, Image, Unpacked, MapBytes;
      FileHolds(Now(), FREE_MAP_SECTOR);
      var bytes := Image(freeMap, pad);
      LengthFits(FREE_MAP_SECTOR);
      ImageRoundTrip(freeMap, pad);
      WithinReach(inodes[FREE_MAP_SECTOR].length);
      PatchedWhole(Contents(FREE_MAP_SECTOR), bytes);
      var written := WriteWithin(FREE_MAP_SECTOR, bytes, 0);
      ok := written == |bytes|;
    }

    /** Reads the free map back from its file. */
    method ReadMap() returns (m: seq<bool>)
      requires Valid() && mapOpen
      ensures m == freeMap
    {
      hide Ok, ContentsOf;
      LengthFits(FREE_MAP_SECTOR);
      WithinReach(inodes[FREE_MAP_SECTOR].length);
      var bytes := ReadAt(FREE_MAP_SECTOR, MapBytes(|freeMap|), 0);
      assert bytes == Contents(FREE_MAP_SECTOR);
      m := Unpacked(bytes, |freeMap|);
    }

    /** Lengthens file F within the sectors it has. */
    method LengthenOnly(f: SectorNo, cnt: nat)
      requires Valid() && f in inodes && (mapOpen ==> f != FREE_MAP_SECTOR) && inodes[f].length + cnt <= MAX_FILE
      requires NewSectors(inodes[f].length, cnt) == 0
      modifies this`inodes
      ensures Valid() && f in inodes && RestSame(old(Now()), Now(), f) && Tail() == old(Tail())
      ensures inodes == old(inodes)[f := old(inodes[f]).(length := old(inodes[f]).length + cnt)]
      ensures Contents(f) == old(Contents(f)) + Zeros(cnt)
    {
      hide Ok, FileOk, MapsOk, ContentsOf, OthersSame, RestSame, Mapped, Owned, Grown, Appended;
      hide NewSectors, SectorsFor, TablesFor, Saved, MapPlaced, MapTail;
      ghost var v := Now();
      OkFacts(v, f);
      var d := inodes[f];
      ghost var st := Start(disk, owner, shape[f], f, d.root, []);
      NotGrown(st, freeMap, d.length, cnt);
      inodes := inodes[f := d.(length := d.length + cnt)];
      VolumeGrown(v, Now(), st, cnt);
      StaysValid(v, Now(), f, mapOpen);
    }

    /** Lengthens file F by the sectors AVAIL, already marked, from the last entry in use (DIR0, IND0) on. */
    method LengthenWith(f: SectorNo, cnt: nat, dir0: nat, ind0: nat, avail: seq<SectorNo>)
      requires Valid() && f in inodes && (mapOpen ==> f != FREE_MAP_SECTOR) && inodes[f].length + cnt <= MAX_FILE
      requires |avail| == NewSectors(inodes[f].length, cnt) && GivenTo(Now(), avail)
      requires (dir0, ind0) == IndicesFromOffset(inodes[f].length - 1)
      modifies this`disk, this`inodes, this`shape, this`owner, this`log
      ensures Valid() && f in inodes && RestSame(old(Now()), Now(), f) && Tail() == old(Tail())
      ensures inodes == old(inodes)[f := old(inodes[f]).(length := old(inodes[f]).length + cnt)]
      ensures old(shape[f]).tabs <= shape[f].tabs && old(shape[f]).secs <= shape[f].secs
      ensures Contents(f) == old(Contents(f)) + Zeros(cnt)
      ensures Tidy(old(disk), old(log), disk, log, Tail())
    {
      hide Ok, FileOk, MapsOk, ContentsOf, OthersSame, RestSame, Mapped, Owned, Grown, Appended, Given, Needs, Saved;
      hide NewSectors, SectorsFor, TablesFor, IndicesFromOffset, Logged, Covering, Tidy, MapPlaced, MapTail;
      ghost var v, l := Now(), log;
      OkFacts(v, f);
      var d := inodes[f];
      NewSectorsExact(d.length, cnt);
      inodes := inodes[f := d.(length := d.length + cnt)];
      ghost var st := Start(disk, owner, shape[f], f, d.root, avail);
      NeedsExactly(st, d.length, cnt);
      GivenStart(v, st);
      ghost var sh := FillTables(f, d.root, dir0, ind0, avail, SectorsFor(d.length + cnt), st);
      shape := shape[f := sh];
      VolumeGrown(v, Now(), st, cnt);
      StaysValid(v, Now(), f, mapOpen);
      TidyWhole(v.disk, l, disk, log, Tail());
    }

    /** Overwrites the bytes at AT, all within one sector. */
    method WriteChunk(f: SectorNo, at: nat, piece: seq<Byte>, sector: int)
      requires Ok(Now()) && f in inodes
      requires sector == if at < SECTOR_SIZE * |shape[f].secs| then shape[f].secs[at / SECTOR_SIZE] else -1
      requires at + |piece| <= inodes[f].length && at % SECTOR_SIZE + |piece| <= SECTOR_SIZE && 0 < |piece|
      modifies this`disk, this`log
      ensures Ok(Now()) && Contents(f) == Overlay(old(Contents(f)), at, piece)
      ensures OthersSame(old(Now()), Now(), f)
      ensures Logged(old(disk), old(log), disk, log)
      ensures |piece| == SECTOR_SIZE ==> Covering(old(log), log)
      ensures at % SECTOR_SIZE == 0 && sector >= 0 ==> CoveringBut(old(log), log, sector, |piece|)
    {
      hide Ok, OthersSame, ContentsOf, Overlay, Logged, Covering, CoveringBut;
      InFile(Now(), f, at);
      SectorWritten(Now(), f, at / SECTOR_SIZE, at % SECTOR_SIZE, piece);
      CacheWrite(sector, piece, at % SECTOR_SIZE);
    }

    /** Copies DATA over the bytes of file F from OFFSET on, as far as the file reaches. */
    method WriteWithin(f: SectorNo, data: seq<Byte>, offset: nat) returns (written: nat)
      requires Ok(Now()) && f in inodes && Reachable(inodes[f].length, |data|, offset)
      modifies this`disk, this`log
      ensures Ok(Now()) && OthersSame(old(Now()), Now(), f)
      ensures Contents(f) == Patched(old(Contents(f)), data, offset)
      ensures written == |Fitting(old(Contents(f)), data, offset)|
      ensures Logged(old(disk), old(log), disk, log)
      ensures Whole(inodes[f].length) && Whole(|data|) && Whole(offset) ==> Covering(old(log), log)
      ensures offset == 0 && |data| == inodes[f].length ==>
                var t := TailOf(inodes[f].length, shape[f]); CoveringBut(old(log), log, t.0, t.1)
    {
      hide Ok, OthersSame, ContentsOf, Halfway, ChunkSize, Overlay, Logged, Covering, CoveringBut, Reachable, Aligned;
      ghost var v, l, c := Now(), log, Contents(f);
      FileHolds(v, f);
      NothingChanged(v, f);
      LoggedNone(disk, log);
      AlignedStart(inodes[f].length, |data|, offset, shape[f], l);
      LengthFits(f);
      ReachableFirst(inodes[f].length, |data|, offset);
      HalfwayStart(c, data, offset);
      var at := offset;
      written := 0;
      while |data| - written > 0
        invariant written <= |data| && at == offset + written
        invariant |data| - written > 0 ==> at < MAX_FILE
        invariant Logged(v.disk, l, disk, log)
        invariant Aligned(inodes[f].length, |data|, offset, shape[f], written, l, log)
        invariant Ok(Now()) && OthersSame(v, Now(), f)
        invariant Halfway(Contents(f), c, data, offset, written)
      {
        var sector := ByteToSector(f, at);
        var chunk := ChunkSize(inodes[f].length, |data| - written, at);
        if chunk <= 0 {
          break;
        }
        if at + chunk < offset + |data| {
          ReachableNext(inodes[f].length, |data|, offset, at + chunk);
        }
        ghost var v1, l1 := Now(), log;
        WriteChunk(f, at, data[written..written + chunk], sector);
        LoggedThen(v.disk, l, v1.disk, l1, disk, log);
        AlignedNext(inodes[f].length, |data|, offset, shape[f], written, sector, l, l1, log);
        OthersSameTrans(v, v1, Now(), f);
        HalfwayNext(ContentsOf(v1, f), Contents(f), c, data, offset, written, chunk);
        written := written + chunk;
        at := at + chunk;
      }
      HalfwayDone(Contents(f), c, data, offset, written);
      AlignedDone(inodes[f].length, |data|, offset, shape[f], written, l, log);
    }

    /** Writes DATA into file F at OFFSET.  The file grows if it has to and can; if it cannot, only the
        bytes below the old end are written.  Nothing is written while writes are denied. */
    method WriteAt(f: SectorNo, data: seq<Byte>, offset: nat) returns (written: nat)
      requires Valid() && f in inodes && (mapOpen ==> f != FREE_MAP_SECTOR)
      requires Writable(inodes[f].length, CountFree(freeMap), inodes[f].denyWriteCnt > 0, |data|, offset)
      modifies this`disk, this`freeMap, this`inodes, this`shape, this`owner, this`log
      ensures Valid() && f in inodes && RestSame(old(Now()), Now(), f)
      ensures inodes == old(inodes)[f := old(inodes[f]).(length := |Contents(f)|)]
      ensures (Contents(f), freeMap, written)
           == IdealWrite(old(Contents(f)), old(freeMap), old(inodes[f].denyWriteCnt) > 0, data, offset)
      ensures old(inodes[f].denyWriteCnt) > 0 ==> written == 0 && Now() == old(Now()) && log == old(log)
      ensures old(inodes[f].denyWriteCnt) == 0 ==>
                && WritesTo(old(Contents(f)), old(CountFree(freeMap)), data, offset, Contents(f), written)
                && TakesFor(old(freeMap), |old(Contents(f))|, |Contents(f)|, freeMap)
      ensures Logged(old(disk), old(log), disk, log) && Tail() == old(Tail())
      ensures old(Whole(inodes[f].length)) && Whole(|data|) && Whole(offset) ==>
                Whole(inodes[f].length) && Tidy(old(disk), old(log), disk, log, Tail())
    {
      hide Ok, OthersSame, RestSame, ContentsOf, NewSectors, CountFree, Take, Logged, Writable, Tidy, Saved, MapPlaced;
      hide MapTail, WritesTo, TakesFor;
      if inodes[f].denyWriteCnt > 0 {
        NothingElse(Now(), f);
        LoggedNone(disk, log);
        TidyNone(disk, log, Tail());
        return 0;
      }
      hide IdealWrite;
      IdealWrites(Contents(f), freeMap, data, offset);
      written := WriteAllowed(f, data, offset);
    }

    /** The same while writes are not denied. */
    method WriteAllowed(f: SectorNo, data: seq<Byte>, offset: nat) returns (written: nat)
      requires Valid() && f in inodes && (mapOpen ==> f != FREE_MAP_SECTOR)
      requires Writable(inodes[f].length, CountFree(freeMap), false, |data|, offset)
      modifies this`disk, this`freeMap, this`inodes, this`shape, this`owner, this`log
      ensures Valid() && f in inodes && RestSame(old(Now()), Now(), f)
      ensures inodes == old(inodes)[f := old(inodes[f]).(length := |Contents(f)|)]
      ensures (Contents(f), freeMap, written) == IdealWrite(old(Contents(f)), old(freeMap), false, data, offset)
      ensures Logged(old(disk), old(log), disk, log) && Tail() == old(Tail())
      ensures old(Whole(inodes[f].length)) && Whole(|data|) && Whole(offset) ==>
                Whole(inodes[f].length) && Tidy(old(disk), old(log), disk, log, Tail())
    {
      hide Ok, OthersSame, RestSame, ContentsOf, Patched, Fitting, NewSectors, CountFree, Take, Logged, Covering;
      hide Reachable, Writable, Tidy, CoveringBut, Saved, MapPlaced, MapTail, IdealWrite, Whole;
      ghost var v, c, l := Now(), Contents(f), log;
      NothingElse(v, f);
      LoggedNone(disk, log);
      TidyNone(disk, log, Tail());
      WritableFirst(|c|, CountFree(freeMap), |data|, offset);
      if offset + |data| > inodes[f].length {
        var _ := ExtendFile(f, offset + |data| - inodes[f].length);
      }
      ghost var v1, l1 := Now(), log;
      LengthFits(f);
      WritableThen(c, v.freeMap, |data|, offset, Contents(f), freeMap);
      IdealMade(c, v.freeMap, data, offset, Contents(f), freeMap);
      written := WriteWithin(f, data, offset);
      OthersRest(v1, Now(), f);
      RestSameTrans(v, v1, Now(), f);
      StaysValid(v1, Now(), f, mapOpen);
      TidyIsLogged(v.disk, l, v1.disk, l1, Tail());
      LoggedThen(v.disk, l, v1.disk, l1, disk, log);
      if Covering(l1, log) {
        TidyWhole(v1.disk, l1, disk, log, Tail());
        TidyThen(v.disk, l, v1.disk, l1, disk, log, Tail());
      }
    }

    /** Allocates one sector, the first free one. */
    method AllocateSingle() returns (ok: bool, sector: SectorNo)
      requires Valid()
      modifies this`disk, this`freeMap, this`log
      ensures Valid() && forall f: SectorNo :: RestSame(old(Now()), Now(), f)
      ensures !mapOpen && FREE_MAP_SECTOR in inodes ==> Contents(FREE_MAP_SECTOR) == old(Contents(FREE_MAP_SECTOR))
      ensures ok == (CountFree(old(freeMap)) > 0)
      ensures ok ==> 1 < sector == FirstFree(old(freeMap)) < |freeMap| && sector !in owner
      ensures freeMap == if ok then Take(old(freeMap), 1) else old(freeMap)
      ensures ok ==> Take(old(freeMap), 1) == old(freeMap)[sector := true]
      ensures Tidy(old(disk), old(log), disk, log, Tail()) && Tail() == old(Tail())
    {
      hide ContentsOf, RestSame, OthersSame, CountFree, Take, Tidy, Saved, MapPlaced, MapTail, FileOk;
      ok, sector := CountFree(freeMap) > 0, 0;
      ghost var v := Now();
      TidyNone(disk, log, Tail());
      if ok {
        TakeOne(freeMap);
        var avail := TakeMarked(1);
        sector := avail[0];
        OnlyTaken(v.freeMap, freeMap, avail);
      } else {
        hide Ok;
        forall f: SectorNo
          ensures RestSame(v, Now(), f)
        {
          NothingElse(v, f);
        }
      }
    }

    /** Makes SECTOR, which is in no slot, available again.  The code does not ask whether the map's file is open. */
    method ReleaseSingle(sector: SectorNo)
      requires Valid() && mapOpen && 1 < sector < |freeMap| && freeMap[sector] && sector !in owner
      modifies this`disk, this`freeMap, this`log
      ensures Valid() && forall f: SectorNo :: RestSame(old(Now()), Now(), f)
      ensures freeMap == old(freeMap)[sector := false]
      ensures Tidy(old(disk), old(log), disk, log, Tail()) && Tail() == old(Tail())
    {
      hide ContentsOf, RestSame, OthersSame, Tidy, Saved, MapPlaced, MapTail, FileOk;
      ghost var v := Now();
      freeMap := freeMap[sector := false];
      assert Remarks(v, freeMap);
      hide Ok;
      SaveMap(v);
    }

    /** Allocates the first root, table and data sector of a file, or nothing at all. */
    method AllocateThree() returns (ok: bool, root: SectorNo, ind: SectorNo, dir: SectorNo)
      requires Valid() && (mapOpen || CountFree(freeMap) == 0 || CountFree(freeMap) >= 3)
      modifies this`disk, this`freeMap, this`log
      ensures Valid() && forall f: SectorNo :: RestSame(old(Now()), Now(), f)
      ensures ok == (CountFree(old(freeMap)) >= 3)
      ensures ok ==> Fresh3(freeMap, owner, root, ind, dir) && freeMap == Take(old(freeMap), 3)
      ensures ok ==> !old(freeMap)[root] && !old(freeMap)[ind] && !old(freeMap)[dir]
      ensures ok ==> freeMap[ind := false][root := false] == ThirdLost(old(freeMap))
      ensures !ok ==> freeMap == old(freeMap)
      ensures Tidy(old(disk), old(log), disk, log, Tail()) && Tail() == old(Tail())
    {
      hide Ok, ContentsOf, RestSame, OthersSame, CountFree, Take, FirstFree, Tidy, Saved, MapPlaced, MapTail;
      hide NewSectors, Fresh3, ThirdLost, TakeNeeded, IdealInode, IdealNew, HeaderOf;
      ghost var v, l, m := Now(), log, freeMap;
      ok, ind, dir := false, 0, 0;
      var okRoot, okInd, okDir;
      ThreeCounts(m);
      okRoot, root := AllocateSingle();
      if okRoot {
        ghost var v1, l1 := Now(), log;
        okInd, ind := AllocateSingle();
        TidyThen(v.disk, l, v1.disk, l1, disk, log, Tail());
        RestAll(v, v1, Now());
        ghost var v2, l2 := Now(), log;
        if okInd {
          okDir, dir := AllocateSingle();
          TidyThen(v.disk, l, v2.disk, l2, disk, log, Tail());
          RestAll(v, v2, Now());
          if okDir {
            ok := true;
            ThreeTaken(m, owner, root, ind, dir);
          } else {
            Undo(root, v, l);
            Undo(ind, v, l);
            TwoBack(m, root, ind);
          }
        } else {
          Undo(root, v, l);
          OneBack(m, root);
        }
      }
    }

    /** Releases SECTOR; V and L are the volume and its log at some earlier time. */
    method Undo(sector: SectorNo, ghost v: View, ghost l: Log)
      requires Valid() && mapOpen && 1 < sector < |freeMap| && freeMap[sector] && sector !in owner
      requires Ok(v) && v.inodes == inodes && v.shape == shape && v.owner == owner
      requires forall f: SectorNo :: RestSame(v, Now(), f)
      requires Tidy(v.disk, l, disk, log, Tail())
      modifies this`disk, this`freeMap, this`log
      ensures Valid() && freeMap == old(freeMap)[sector := false]
      ensures forall f: SectorNo :: RestSame(v, Now(), f)
      ensures Tidy(v.disk, l, disk, log, Tail()) && Tail() == old(Tail())
    {
      hide Ok, ContentsOf, RestSame, OthersSame, CountFree, Take, FirstFree, Tidy, Saved, MapPlaced, MapTail;
      hide NewSectors, Fresh3, ThirdLost, TakeNeeded, IdealInode, IdealNew, HeaderOf;
      ghost var v1, l1 := Now(), log;
      ReleaseSingle(sector);
      TidyThen(v.disk, l, v1.disk, l1, disk, log, Tail());
      RestAll(v, v1, Now());
    }

    /** Writes inode D to SECTOR, which holds no file's data or tables. */
    method WriteHeader(sector: SectorNo, d: InodeData)
      requires Valid() && sector < |disk| && (sector in owner ==> owner[sector].Header?) && d.length < 0x1_0000_0000
      modifies this`disk, this`log
      ensures Valid() && disk == old(disk)[sector := HeaderOf(d)]
      ensures forall f: SectorNo :: RestSame(old(Now()), Now(), f)
      ensures forall f: SectorNo | f in inodes :: Contents(f) == old(Contents(f))
      ensures Tidy(old(disk), old(log), disk, log, Tail()) && Tail() == old(Tail())
    {
      hide Ok, ContentsOf, OthersSame, RestSame, Logged, Covering, Tidy, Encode, Unpacked;
      ghost var v, l := Now(), log;
      CacheWrite(sector, HeaderOf(d), 0);
      TidyWhole(v.disk, l, disk, log, Tail());
      forall f: SectorNo
        ensures Ok(Now()) && RestSame(v, Now(), f)
        ensures f in inodes ==> Contents(f) == ContentsOf(v, f)
      {
        Unrelated(v, sector, HeaderOf(d), f);
        OthersRest(v, Now(), f);
      }
    }

    /** Makes a file of LENGTH zero bytes of the three sectors just allocated, or gives the two tables back. */
    method FillNew(sector: SectorNo, length: nat, isDirectory: bool, root: SectorNo, ind: SectorNo, dir: SectorNo)
      returns (success: bool)
      requires Valid() && sector < |freeMap| && freeMap[sector] && sector !in owner && sector !in inodes
      requires Fresh3(freeMap, owner, root, ind, dir) && sector !in {root, ind, dir}
      requires length <= MAX_FILE || NewSectors(0, length) > CountFree(freeMap)
      requires mapOpen || NewSectors(0, length) <= CountFree(freeMap)
      modifies this`disk, this`freeMap, this`inodes, this`shape, this`owner, this`log
      ensures Valid() && RestSame(old(Now()), Now(), sector)
      ensures success == (NewSectors(0, length) <= CountFree(old(freeMap)))
      ensures success ==> NewSectors(0, length) >= 0 && freeMap == Take(old(freeMap), NewSectors(0, length))
      ensures !success ==> freeMap == old(freeMap)[ind := false][root := false]
      ensures success ==>
                && inodes.Keys == old(inodes).Keys + {sector} && Contents(sector) == Zeros(length)
                && inodes[sector].length == length && inodes[sector].denyWriteCnt == 0
                && inodes[sector].isDirectory == isDirectory && disk[sector] == HeaderOf(inodes[sector])
      ensures !success ==> inodes == old(inodes) && shape == old(shape) && owner == old(owner)
      ensures Tidy(old(disk), old(log), disk, log, Tail()) && Tail() == old(Tail())
    {
      hide Ok, ContentsOf, OthersSame, RestSame, NewSectors, CountFree, Take, Tidy, Logged, Covering, Encode, Saved;
      hide MapPlaced, MapTail, FileOk, MapsOk, HeaderOf;
      ghost var v, l, t := Now(), log, Tail();
      OkMaps(v);
      CreatedOk(v, sector, root, ind, dir, isDirectory);
      WriteFirst(sector, root, ind, dir, isDirectory);
      ghost var w, k := Now(), log;
      NotTheMap(v, sector, mapOpen);
      StaysValid(v, w, sector, mapOpen);
      TidyWhole(v.disk, l, w.disk, k, t);
      success := ExtendFile(sector, length);
      TidyThen(v.disk, l, w.disk, k, disk, log, t);
      RestSameTrans(v, w, Now(), sector);
      if success {
        assert [] + Zeros(length) == Zeros(length);
        ghost var w1, k1 := Now(), log;
        LengthFits(sector);
        HeaderOwned(w1, sector);
        WriteHeader(sector, inodes[sector]);
        TidyThen(v.disk, l, w1.disk, k1, disk, log, t);
        RestSameTrans(v, w1, Now(), sector);
      } else {
        TakeBack(sector, root, ind, dir, isDirectory, v, l);
      }
    }

    /** Creates a file of LENGTH zero bytes whose inode is in SECTOR, which the caller has allocated.  A creation that
        fails while the free map's file is not open would have to save the map; the code does not survive that. */
    method Create(sector: SectorNo, length: nat, isDirectory: bool) returns (success: bool)
      requires Valid() && sector < |freeMap| && freeMap[sector] && sector !in owner && sector !in inodes
      requires length <= MAX_FILE || 3 + NewSectors(0, length) > CountFree(freeMap)
      requires mapOpen || CountFree(freeMap) == 0 || 3 + NewSectors(0, length) <= CountFree(freeMap)
      modifies this`disk, this`freeMap, this`inodes, this`shape, this`owner, this`log
      ensures Valid() && RestSame(old(Now()), Now(), sector)
      ensures (success, freeMap) == IdealInode(old(freeMap), length)
      ensures success <==> 3 + NewSectors(0, length) <= CountFree(old(freeMap))
      ensures success ==> NewSectors(0, length) >= 0 && freeMap == Take(old(freeMap), 3 + NewSectors(0, length))
      ensures !success ==>
                CountFree(freeMap) == CountFree(old(freeMap)) - if CountFree(old(freeMap)) >= 3 then 1 else 0
      ensures success ==>
                && inodes.Keys == old(inodes).Keys + {sector} && Contents(sector) == Zeros(length)
                && inodes[sector].length == length && inodes[sector].denyWriteCnt == 0
                && inodes[sector].isDirectory == isDirectory && disk[sector] == HeaderOf(inodes[sector])
      ensures !success ==> inodes == old(inodes) && shape == old(shape) && owner == old(owner)
      ensures Tidy(old(disk), old(log), disk, log, Tail()) && Tail() == old(Tail())
    {
      hide Ok, ContentsOf, RestSame, OthersSame, CountFree, Take, FirstFree, Tidy, Saved, MapPlaced, MapTail;
      hide NewSectors, Fresh3, ThirdLost, TakeNeeded, IdealInode, IdealNew, HeaderOf;
      ghost var v, l, t, m := Now(), log, Tail(), freeMap;
      InodeCounts(m, length);
      InodeFree(m, length);
      var three: bool, root: SectorNo, ind: SectorNo, dir: SectorNo;
      three, root, ind, dir := AllocateThree();
      ghost var v1, l1 := Now(), log;
      success := three;
      OkMaps(v1);
      if three {
        TakeKeeps(m, 3, sector);
        success := FillNew(sector, length, isDirectory, root, ind, dir);
        TidyThen(v.disk, l, v1.disk, l1, disk, log, t);
      } else {
        WriteHeader(sector, InodeData(0, root, isDirectory, 0));
        TidyThen(v.disk, l, v1.disk, l1, disk, log, t);
      }
      RestSameTrans(v, v1, Now(), sector);
    }

    /** Enters an empty file with the three sectors just allocated for it. */
    method WriteFirst(sector: SectorNo, root: SectorNo, ind: SectorNo, dir: SectorNo, isDirectory: bool)
      requires root < |disk| && ind < |disk| && dir < |disk|
      modifies this`disk, this`inodes, this`shape, this`owner, this`log
      ensures Logged(old(disk), old(log), disk, log) && Covering(old(log), log)
      ensures disk == old(disk)[dir := ZERO_SECTOR]
                      [ind := Encode(ZERO_TABLE[0 := dir])][root := Encode(ZERO_TABLE[0 := ind])]
      ensures inodes == old(inodes)[sector := InodeData(0, root, isDirectory, 0)]
      ensures shape == old(shape)[sector := Shape([ind], [dir])]
      ensures owner == old(owner)[sector := Header(sector)][root := Root(sector)]
                       [ind := Tab(sector, 0)][dir := Data(sector, 0)]
    {
      hide Encode, Logged, Covering, CoveringBut;
      ghost var d, l := disk, log;
      CacheWrite(dir, ZERO_SECTOR, 0);
      ghost var d1, l1 := disk, log;
      CacheWrite(ind, Encode(ZERO_TABLE[0 := dir]), 0);
      LoggedThen(d, l, d1, l1, disk, log);
      d1, l1 := disk, log;
      CacheWrite(root, Encode(ZERO_TABLE[0 := ind]), 0);
      LoggedThen(d, l, d1, l1, disk, log);
      inodes := inodes[sector := InodeData(0, root, isDirectory, 0)];
      shape := shape[sector := Shape([ind], [dir])];
      owner := owner[sector := Header(sector)][root := Root(sector)][ind := Tab(sector, 0)][dir := Data(sector, 0)];
    }

    /** Gives up a file that was just entered in volume V with log L: of its sectors only the two tables are
        released. */
    method TakeBack(sector: SectorNo, root: SectorNo, ind: SectorNo, dir: SectorNo, isDirectory: bool,
                    ghost v: View, ghost l: Log)
      requires Valid() && mapOpen && Ok(v) && Saved(v)
      requires Fresh3(v.freeMap, v.owner, root, ind, dir) && sector !in v.owner && sector !in v.inodes
      requires |v.disk| == |v.freeMap| && Now() == CreatedView(v, sector, root, ind, dir, isDirectory)
      requires Tidy(v.disk, l, disk, log, Tail()) && Tail() == MapTail(v, mapOpen)
      modifies this`disk, this`freeMap, this`inodes, this`shape, this`owner, this`log
      ensures Valid() && RestSame(v, Now(), sector)
      ensures inodes == v.inodes && shape == v.shape && owner == v.owner
      ensures freeMap == v.freeMap[ind := false][root := false]
      ensures Tidy(v.disk, l, disk, log, Tail()) && Tail() == old(Tail())
    {
      hide Ok, ContentsOf, OthersSame, RestSame, MapsOk, Encode, Tidy, Saved, MapTail, MapPlaced;
      CreateUndone(v, sector, root, ind, dir, isDirectory);
      inodes := inodes - {sector};
      shape := shape - {sector};
      owner := owner - {sector, root, ind, dir};
      PlacedIf(v);
      NotTheMap(v, sector, true);
      StaysValid(v, Now(), sector, true);
      UndoneRest(v, Now(), sector);
      Undo(ind, v, l);
      Undo(root, v, l);
    }

    /** Allocates a sector for an inode and creates a file of LENGTH zero bytes there. */
    method NewFile(length: nat, isDirectory: bool) returns (r: Option<SectorNo>)
      requires Valid() && mapOpen
      requires length <= MAX_FILE || 4 + NewSectors(0, length) > CountFree(freeMap)
      modifies this`disk, this`freeMap, this`inodes, this`shape, this`owner, this`log
      ensures Valid() && (r.Some? <==> IdealNew(old(freeMap), length).0.Some?)
      ensures r.Some? ==> r.value == FirstFree(old(freeMap)) && r.value !in old(inodes) && r.value > 1
      ensures freeMap == IdealNew(old(freeMap), length).1
      ensures if r.Some? then RestSame(old(Now()), Now(), r.value)
              else forall f: SectorNo :: RestSame(old(Now()), Now(), f)
      ensures r.Some? ==>
                && inodes.Keys == old(inodes).Keys + {r.value} && Contents(r.value) == Zeros(length)
                && inodes[r.value].denyWriteCnt == 0 && inodes[r.value].isDirectory == isDirectory
                && inodes[r.value].length == length < 0x1_0000_0000 && disk[r.value] == HeaderOf(inodes[r.value])
      ensures r.Some? <==> 4 + NewSectors(0, length) <= CountFree(old(freeMap))
      ensures r.Some? ==> NewSectors(0, length) >= 0 && freeMap == Take(old(freeMap), 4 + NewSectors(0, length))
      ensures r.None? ==>
                CountFree(freeMap) == CountFree(old(freeMap)) - if CountFree(old(freeMap)) >= 4 then 1 else 0
      ensures r.None? ==> inodes == old(inodes) && shape == old(shape) && owner == old(owner)
      ensures Tidy(old(disk), old(log), disk, log, Tail()) && Tail() == old(Tail())
    {
      hide Ok, ContentsOf, RestSame, OthersSame, CountFree, Take, FirstFree, Tidy, Saved, MapPlaced, MapTail;
      hide NewSectors, Fresh3, ThirdLost, TakeNeeded, IdealInode, IdealNew, HeaderOf;
      ghost var v, l, m, t := Now(), log, freeMap, Tail();
      NewCounts(m, length);
      NewFree(m, length);
      var ok, sector := AllocateSingle();
      ghost var v1, l1 := Now(), log;
      if !ok {
        return None;
      }
      NotInUse(v1, sector);
      var made := Create(sector, length, isDirectory);
      TidyThen(v.disk, l, v1.disk, l1, disk, log, t);
      if made {
        RestSameTrans(v, v1, Now(), sector);
        return Some(sector);
      }
      NoneElse(v1, Now(), sector);
      RestAll(v, v1, Now());
      Undo(sector, v, l);
      return None;
    }

    /** Creates the file for the free map, opens it and saves the map.  The code panics if there is no room. */
    method CreateMap()
      requires Valid() && !mapOpen && FREE_MAP_SECTOR !in inodes && FREE_MAP_SECTOR !in owner
      requires MapBytes(|freeMap|) <= MAX_FILE && 3 + NewSectors(0, MapBytes(|freeMap|)) <= CountFree(freeMap)
      modifies this
      ensures Valid() && mapOpen && RestSame(old(Now()), Now(), FREE_MAP_SECTOR)
      ensures inodes.Keys == old(inodes).Keys + {FREE_MAP_SECTOR} && pad == old(pad)
      ensures (true, freeMap) == IdealInode(old(freeMap), MapBytes(|old(freeMap)|))
      ensures Tidy(old(disk), old(log), disk, log, Tail())
    {
      hide Ok, ContentsOf, OthersSame, RestSame, NewSectors, CountFree, Tidy, MapBytes, IdealInode, HeaderOf;
      ghost var v, l := Now(), log;
      MapMarked(v);
      InodeCounts(freeMap, MapBytes(|freeMap|));
      var ok := Create(FREE_MAP_SECTOR, MapBytes(|freeMap|), false);
      ghost var v1, l1 := Now(), log;
      mapOpen := true;
      TidyLoose(v.disk, l, v1.disk, l1, Tail());
      var wrote := WriteMap();
      TidyThen(v.disk, l, v1.disk, l1, disk, log, Tail());
      OthersRest(v1, Now(), FREE_MAP_SECTOR);
      RestSameTrans(v, v1, Now(), FREE_MAP_SECTOR);
    }

    /** Any run of reads, writes and creations answers as the flat files would, and leaves the flat files it should. */
    method Run(ops: seq<Op>) returns (outs: seq<Out>)
      requires Valid() && RunOk(Abstract(Now()), ops) && (mapOpen || forall i | 0 <= i < |ops| :: !ops[i].New?)
      modifies this`disk, this`freeMap, this`inodes, this`shape, this`owner, this`log
      ensures Valid() && (Abstract(Now()), outs) == RunFlat(old(Abstract(Now())), ops)
      ensures Logged(old(disk), old(log), disk, log) && Tail() == old(Tail())
      ensures old(WholeFiles(Abstract(Now()))) && WholeOps(ops) ==> Tidy(old(disk), old(log), disk, log, Tail())
    {
      hide Ok, Abstract, RunFlat, RunOk, StepFlat, OpOk, Logged, Tidy, WholeFiles, MapTail, Saved, MapPlaced;
      ghost var v, l, t := Now(), log, Tail();
      LoggedNone(disk, log);
      TidyNone(disk, log, t);
      RunFlatStart(Abstract(v));
      outs := [];
      var i := 0;
      assert ops[..0] == [];
      while i < |ops|
        invariant 0 <= i <= |ops|
        invariant Valid() && RunOk(Abstract(v), ops[..i]) && Tail() == t
        invariant (Abstract(Now()), outs) == RunFlat(Abstract(v), ops[..i])
        invariant Logged(v.disk, l, disk, log)
        invariant WholeFiles(Abstract(v)) && WholeOps(ops) ==>
                    WholeFiles(Abstract(Now())) && Tidy(v.disk, l, disk, log, t)
      {
        RunFlatStep(Abstract(v), ops, i);
        ghost var d1, l1 := disk, log;
        var out := Perform(ops[i]);
        LoggedThen(v.disk, l, d1, l1, disk, log);
        if WholeFiles(Abstract(v)) && WholeOps(ops) {
          TidyThen(v.disk, l, d1, l1, disk, log, t);
        }
        outs := outs + [out];
        i := i + 1;
      }
      assert ops[..i] == ops;
    }

    method Perform(op: Op) returns (out: Out)
      requires Valid() && OpOk(Abstract(Now()), op) && (op.New? ==> mapOpen)
      modifies this`disk, this`freeMap, this`inodes, this`shape, this`owner, this`log
      ensures Valid() && (Abstract(Now()), out) == StepFlat(old(Abstract(Now())), op)
      ensures Logged(old(disk), old(log), disk, log) && Tail() == old(Tail())
      ensures old(WholeFiles(Abstract(Now()))) && WholeOp(op) ==>
                WholeFiles(Abstract(Now())) && Tidy(old(disk), old(log), disk, log, Tail())
    {
      hide Ok, RestSame, ContentsOf, CountFree, IdealWrite, IdealNew, Slice, Reachable, Writable, Logged, Tidy, MapTail;
      hide Saved, MapPlaced, NewSectors, FirstFree;
      ghost var v := Now();
      LoggedNone(disk, log);
      TidyNone(disk, log, Tail());
      if WholeFiles(Abstract(v)) && WholeOp(op) {
        WholeStep(Abstract(v), op);
      }
      match op
      case Read(f, size, offset) =>
        var buffer := ReadAt(f, size, offset);
        out := Bytes(buffer);
      case Write(f, data, offset) =>
        var n := WriteAt(f, data, offset);
        AbstractUpdate(v, Now(), f);
        out := Count(n);
      case New(length, isDirectory) =>
        var r := NewFile(length, isDirectory);
        TidyIsLogged(v.disk, old(log), disk, log, Tail());
        if r.Some? {
          AbstractNew(v, Now(), r.value);
          out := Created(Some(r.value));
        } else {
          AbstractSame(v, Now());
          out := Created(None);
        }
    }
  }

  datatype Op =
    | Read(f: SectorNo, size: int, offset: nat)
    | Write(f: SectorNo, data: seq<Byte>, offset: nat)
    | New(length: nat, isDirectory: bool)

  datatype Out = Bytes(bytes: seq<Byte>) | Count(n: nat) | Created(sector: Option<nat>)

  /** The specification: one byte sequence per file, but for the free map's own, and the free map. */
  datatype FlatFiles = FlatFiles(files: map<nat, seq<Byte>>, denied: set<nat>, freeMap: seq<bool>)

  ghost function FilesOf(v: View): (files: map<nat, seq<Byte>>)
    requires Ok(v)
    ensures files.Keys == v.inodes.Keys - {FREE_MAP_SECTOR}
  {
    map f | f in v.inodes && f != FREE_MAP_SECTOR :: ContentsOf(v, f)
  }

  ghost function Abstract(v: View): (s: FlatFiles)
    requires Ok(v)
    ensures s.files.Keys == v.inodes.Keys - {FREE_MAP_SECTOR}
  {
    FlatFiles(FilesOf(v),
              (set f | f in v.inodes && f != FREE_MAP_SECTOR && v.inodes[f].denyWriteCnt > 0),
              v.freeMap)
  }

  /** Reads, writes and creations look up only places the tables have. */
  predicate OpOk(s: FlatFiles, op: Op) {
    match op
    case Read(f, size, offset) => f in s.files && Reachable(|s.files[f]|, size, offset)
    case Write(f, data, offset) =>
      f in s.files && Writable(|s.files[f]|, CountFree(s.freeMap), f in s.denied, |data|, offset)
    case New(length, _) => length <= MAX_FILE || 4 + NewSectors(0, length) > CountFree(s.freeMap)
  }

  /** All files and all writes are of whole sectors. */
  ghost predicate WholeFiles(s: FlatFiles) {
    forall f | f in s.files :: Whole(|s.files[f]|)
  }

  predicate WholeOp(op: Op) {
    && (op.Write? ==> Whole(|op.data|) && Whole(op.offset))
    && (op.New? ==> Whole(op.length))
  }

  predicate WholeOps(ops: seq<Op>) {
    forall i | 0 <= i < |ops| :: WholeOp(ops[i])
  }

  function StepFlat(s: FlatFiles, op: Op): (FlatFiles, Out)
    requires OpOk(s, op)
  {
    match op
    case Read(f, size, offset) => (s, Bytes(Slice(s.files[f], offset, size)))
    case Write(f, data, offset) =>
      var (c, m, n) := IdealWrite(s.files[f], s.freeMap, f in s.denied, data, offset);
      (s.(files := s.files[f := c], freeMap := m), Count(n))
    case New(length, _) =>
      var (r, m) := IdealNew(s.freeMap, length);
      (s.(files := if r.Some? then s.files[r.value := Zeros(length)] else s.files, freeMap := m), Created(r))
  }

  lemma WholeStep(s: FlatFiles, op: Op)
    requires OpOk(s, op) && WholeFiles(s) && WholeOp(op)
    ensures WholeFiles(StepFlat(s, op).0)
  {
    hide Reachable, Writable, NewSectors, CountFree, Take, IdealNew, Slice;
    if op.Write? {
      WholeWritten(s.files[op.f], s.freeMap, op.f in s.denied, op.data, op.offset);
    }
  }

  /** What was written is read back; other files, and the rest of this one, read as before. */
  lemma ReadsBack(s: FlatFiles, f: SectorNo, data: seq<Byte>, offset: nat)
    requires f in s.files && OpOk(s, Write(f, data, offset)) && f !in s.denied
    ensures var (s', out) := StepFlat(s, Write(f, data, offset));
            && out.Count? && s'.files.Keys == s.files.Keys && s'.denied == s.denied
            && (forall g | g in s.files && g != f :: s'.files[g] == s.files[g])
            && WritesTo(s.files[f], CountFree(s.freeMap), data, offset, s'.files[f], out.n)
            && (out.n == |data| && OpOk(s', Read(f, |data|, offset)) ==>
                  StepFlat(s', Read(f, |data|, offset)) == (s', Bytes(data)))
  {
    hide NewSectors, CountFree, Take, IdealWrite, Reachable, Writable, WritesTo, Slice, TakesFor;
    IdealWrites(s.files[f], s.freeMap, data, offset);
    var (s', out) := StepFlat(s, Write(f, data, offset));
    WrittenSlice(s.files[f], CountFree(s.freeMap), data, offset, s'.files[f], out.n);
  }

  lemma WrittenSlice(c: seq<Byte>, free: nat, data: seq<Byte>, offset: nat, c': seq<Byte>, written: nat)
    requires WritesTo(c, free, data, offset, c', written)
    ensures written == |data| ==> Slice(c', offset, |data|) == data
  {
    hide NewSectors;
    if written == |data| && data != [] {
      SliceIs(c', offset, |data|);
    }
  }

  /** While writes are denied nothing is written and nothing changes. */
  lemma DeniedWrite(s: FlatFiles, f: SectorNo, data: seq<Byte>, offset: nat)
    requires f in s.files && OpOk(s, Write(f, data, offset)) && f in s.denied
    ensures StepFlat(s, Write(f, data, offset)) == (s, Count(0))
  {
    assert s.files[f := s.files[f]] == s.files;
  }

  /** A new file reads as zeros, and has a place that no file had. */
  lemma NewReads(s: FlatFiles, length: nat, isDirectory: bool, size: nat)
    requires |s.freeMap| < 0x1_0000_0000 && OpOk(s, New(length, isDirectory))
    requires forall f | f in s.files :: f < |s.freeMap| && s.freeMap[f]
    ensures var (s', out) := StepFlat(s, New(length, isDirectory));
            && out.Created? && s'.denied == s.denied
            && (out.sector.Some? <==> 4 + NewSectors(0, length) <= CountFree(s.freeMap))
            && (out.sector.None? ==> s'.files == s.files)
            && (out.sector.Some? ==>
                  var f := out.sector.value;
                  && f < |s.freeMap| && f !in s.files && s'.files == s.files[f := Zeros(length)]
                  && (OpOk(s', Read(f, size, 0)) ==>
                        StepFlat(s', Read(f, size, 0)) == (s', Bytes(Zeros(Clipped(length, size, 0))))))
  {
    NewFree(s.freeMap, length);
    FirstFreeExists(s.freeMap);
    var r := IdealNew(s.freeMap, length).0;
    assert r.Some? ==> !s.freeMap[r.value];
    hide NewSectors, CountFree, Take, IdealNew, FirstFree, Reachable, Slice;
    SliceIs(Zeros(length), 0, size);
    assert Slice(Zeros(length), 0, size) == Zeros(Clipped(length, size, 0));
  }

  lemma WholeWritten(c: seq<Byte>, m: seq<bool>, denied: bool, data: seq<Byte>, offset: nat)
    requires Whole(|c|) && Whole(|data|) && Whole(offset)
    ensures Whole(|IdealWrite(c, m, denied, data, offset).0|)
  {
    hide NewSectors, CountFree, Take;
  }

  /** Every operation is as it should be in the state it meets. */
  predicate RunOk(s: FlatFiles, ops: seq<Op>)
    decreases |ops|, 0
  {
    ops == [] || (var before := ops[..|ops| - 1];
                  RunOk(s, before) && OpOk(RunFlat(s, before).0, ops[|ops| - 1]))
  }

  function RunFlat(s: FlatFiles, ops: seq<Op>): (r: (FlatFiles, seq<Out>))
    requires RunOk(s, ops)
    decreases |ops|, 1
  {
    if ops == [] then
      (s, [])
    else
      var (s1, outs) := RunFlat(s, ops[..|ops| - 1]);
      var (s2, out) := StepFlat(s1, ops[|ops| - 1]);
      (s2, outs + [out])
  }

  lemma RunFlatStart(s: FlatFiles)
    ensures RunOk(s, []) && RunFlat(s, []) == (s, [])
  {
  }

  lemma {:induction false} RunOkPrefix(s: FlatFiles, ops: seq<Op>, i: nat)
    requires RunOk(s, ops) && i <= |ops|
    ensures RunOk(s, ops[..i])
    decreases |ops|
  {
    if i < |ops| {
      RunOkPrefix(s, ops[..|ops| - 1], i);
      assert ops[..|ops| - 1][..i] == ops[..i];
    } else {
      assert ops[..i] == ops;
    }
  }

  lemma RunFlatStep(s: FlatFiles, ops: seq<Op>, i: nat)
    requires i < |ops| && RunOk(s, ops)
    ensures RunOk(s, ops[..i]) && RunOk(s, ops[..i + 1]) && OpOk(RunFlat(s, ops[..i]).0, ops[i])
    ensures var (s1, outs) := RunFlat(s, ops[..i]);
            var (s2, out) := StepFlat(s1, ops[i]);
            RunFlat(s, ops[..i + 1]) == (s2, outs + [out])
  {
    RunOkPrefix(s, ops, i);
    RunOkPrefix(s, ops, i + 1);
    assert ops[..i + 1][..i] == ops[..i];
  }

  lemma AbstractUpdate(v: View, w: View, f: SectorNo)
    requires Ok(v) && Ok(w) && f in v.inodes && f != FREE_MAP_SECTOR && RestSame(v, w, f)
    requires f in w.inodes && w.inodes == v.inodes[f := v.inodes[f].(length := |ContentsOf(w, f)|)]
    ensures Abstract(w) == FlatFiles(Abstract(v).files[f := ContentsOf(w, f)], Abstract(v).denied, w.freeMap)
  {
    hide Ok, ContentsOf;
  }

  /** A new file is one more in the map from files to byte sequences. */
  lemma AbstractNew(v: View, w: View, f: SectorNo)
    requires Ok(v) && Ok(w) && f !in v.inodes && f != FREE_MAP_SECTOR && RestSame(v, w, f)
    requires w.inodes.Keys == v.inodes.Keys + {f} && w.inodes[f].denyWriteCnt == 0
    ensures Abstract(w) == FlatFiles(Abstract(v).files[f := ContentsOf(w, f)], Abstract(v).denied, w.freeMap)
  {
    hide Ok, ContentsOf;
  }

  lemma AbstractSame(v: View, w: View)
    requires Ok(v) && Ok(w) && w.inodes == v.inodes && RestSame(v, w, FREE_MAP_SECTOR)
    ensures Abstract(w) == Abstract(v).(freeMap := w.freeMap)
  {
    hide Ok, ContentsOf;
  }

  /** No sector serves two purposes: all the sectors of all the files are different. */
  lemma SectorsDisjoint(v: View, f: SectorNo, g: SectorNo)
    requires Ok(v) && f in v.inodes && g in v.inodes
    ensures forall k, l | 0 <= k < |v.shape[f].secs| && 0 <= l < |v.shape[g].secs| && (f, k) != (g, l) ::
              v.shape[f].secs[k] != v.shape[g].secs[l]
    ensures forall k, i | 0 <= k < |v.shape[f].secs| && 0 <= i < |v.shape[g].tabs| ::
              v.shape[f].secs[k] != v.shape[g].tabs[i]
    ensures forall i, j | 0 <= i < |v.shape[f].tabs| && 0 <= j < |v.shape[g].tabs| && (f, i) != (g, j) ::
              v.shape[f].tabs[i] != v.shape[g].tabs[j]
    ensures forall k | 0 <= k < |v.shape[f].secs| :: v.shape[f].secs[k] !in {0, g, v.inodes[g].root}
    ensures forall i | 0 <= i < |v.shape[f].tabs| :: v.shape[f].tabs[i] !in {0, g, v.inodes[g].root}
    ensures f != g ==> v.inodes[f].root != v.inodes[g].root
    ensures v.inodes[f].root !in {0, g}
    ensures |v.shape[f].secs| == SectorsFor(v.inodes[f].length)
  {
    var (a, b) := (v.shape[f], v.shape[g]);
    assert Owned(v.owner, f, v.inodes[f].root, a) && Owned(v.owner, g, v.inodes[g].root, b);
    assert InRange(v.disk, a.secs) && InRange(v.disk, a.tabs);
  }
}
