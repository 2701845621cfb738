/** Directories: 20-byte entries in a file of the inode layer, and the map from names to sectors they stand for. */
module Directory {
  import opened Common
  import opened Sectors
  import opened FreeMap
  import opened Inode

  const ENTRY_SIZE := 20
  const NAME_MAX := 14
  /** Within an entry: the sector number, the name with a null byte after it, and whether the entry is in use. */
  const NAME_OFS := 4
  const USE_OFS := 19

  datatype Entry = Entry(used: bool, name: seq<Byte>, sector: SectorNo)

  function NumberAt(s: seq<Byte>): SectorNo
    requires |s| >= 4
  {
    var b0: int, b1: int, b2: int, b3: int := s[0], s[1], s[2], s[3];
    b0 + 0x100 * b1 + 0x1_0000 * b2 + 0x100_0000 * b3
  }

  function NumberBytes(x: SectorNo): (s: seq<Byte>)
    ensures |s| == 4
  {
    [ByteOf(x, 0), ByteOf(x, 1), ByteOf(x, 2), ByteOf(x, 3)]
  }

  /** What the 20 bytes of an entry mean. */
  function Decoded(s: seq<Byte>): Entry
    requires |s| == ENTRY_SIZE
  {
    Entry(s[USE_OFS] != 0, CString(s[NAME_OFS..USE_OFS], 0), NumberAt(s))
  }

  /** NAME and its null byte over the old bytes of the field. */
  function NameField(raw: seq<Byte>, name: seq<Byte>): (r: seq<Byte>)
    requires |raw| == NAME_MAX + 1 && |name| <= NAME_MAX
    ensures |r| == NAME_MAX + 1
  {
    Overlay(raw, 0, name + [0])
  }

  /** An entry's bytes; RAW is what was in its name field. */
  function Encoded(sector: SectorNo, raw: seq<Byte>, used: bool): (s: seq<Byte>)
    requires |raw| == NAME_MAX + 1
    ensures |s| == ENTRY_SIZE
  {
    NumberBytes(sector) + raw + [if used then 1 else 0]
  }

  lemma EncodedMeans(sector: SectorNo, raw: seq<Byte>, used: bool)
    requires |raw| == NAME_MAX + 1
    ensures Decoded(Encoded(sector, raw, used)) == Entry(used, CString(raw, 0), sector)
  {
    var s := Encoded(sector, raw, used);
    BytesOfNumber(sector);
    assert s[NAME_OFS..USE_OFS] == raw;
  }

  lemma NameFieldMeans(raw: seq<Byte>, name: Name)
    requires |raw| == NAME_MAX + 1 && |name| <= NAME_MAX
    ensures CString(NameField(raw, name), 0) == name
  {
    var r := NameField(raw, name);
    CStringIs(r, 0, |name|);
    assert r[..|name|] == name;
  }

  /** The entries of a directory with contents C. */
  function Entries(c: seq<Byte>): (es: seq<Entry>)
    ensures |es| == |c| / ENTRY_SIZE
    ensures forall k | 0 <= k < |es| :: es[k] == Decoded(c[ENTRY_SIZE * k..ENTRY_SIZE * k + ENTRY_SIZE])
  {
    seq(|c| / ENTRY_SIZE, k requires 0 <= k < |c| / ENTRY_SIZE
        => Decoded(c[ENTRY_SIZE * k..ENTRY_SIZE * k + ENTRY_SIZE]))
  }

  /** Writing an entry changes that entry, or adds it at the end. */
  lemma EntriesWritten(c: seq<Byte>, data: seq<Byte>, k: nat)
    requires |c| % ENTRY_SIZE == 0 && |data| == ENTRY_SIZE && k <= |c| / ENTRY_SIZE
    ensures var c', es := Written(c, data, ENTRY_SIZE * k), Entries(c);
            && |c'| % ENTRY_SIZE == 0
            && Entries(c') == if k < |es| then es[k := Decoded(data)] else es + [Decoded(data)]
  {
    hide Decoded;
    var c', es := Written(c, data, ENTRY_SIZE * k), Entries(c);
    var n := |c| / ENTRY_SIZE;
    assert |c| == ENTRY_SIZE * n;
    assert |c'| == ENTRY_SIZE * if k < n then n else n + 1;
    forall j | 0 <= j < |Entries(c')|
      ensures c'[ENTRY_SIZE * j..ENTRY_SIZE * j + ENTRY_SIZE]
              == if j == k then data else c[ENTRY_SIZE * j..ENTRY_SIZE * j + ENTRY_SIZE]
    {
    }
  }

  // What the entries stand for.

  /** The first entry in use for NAME, or |es|. */
  function Find(es: seq<Entry>, name: seq<Byte>): (k: nat)
    ensures k <= |es|
    ensures k < |es| ==> es[k].used && es[k].name == name
    ensures forall j | 0 <= j < k :: !(es[j].used && es[j].name == name)
  {
    if es == [] || (es[0].used && es[0].name == name) then 0 else Find(es[1..], name) + 1
  }

  /** The first entry that is not in use, or |es|. */
  function FindFree(es: seq<Entry>): (k: nat)
    ensures k <= |es|
    ensures k < |es| ==> !es[k].used
    ensures forall j | 0 <= j < k :: es[j].used
  {
    if es == [] || !es[0].used then 0 else FindFree(es[1..]) + 1
  }

  /** Entries in use have proper names, no two the same. */
  ghost predicate Good(es: seq<Entry>) {
    && (forall k | 0 <= k < |es| && es[k].used :: 1 <= |es[k].name| <= NAME_MAX)
    && (forall j, k | 0 <= j < k < |es| && es[j].used && es[k].used :: es[j].name != es[k].name)
  }

  ghost function Names(es: seq<Entry>): set<seq<Byte>> {
    set k | 0 <= k < |es| && es[k].used :: es[k].name
  }

  ghost function MapOf(es: seq<Entry>): (m: map<seq<Byte>, SectorNo>)
    ensures m.Keys == Names(es)
  {
    map n | n in Names(es) :: Sector(es, n)
  }

  ghost function Sector(es: seq<Entry>, name: seq<Byte>): SectorNo {
    var k := Find(es, name);
    if k < |es| then es[k].sector else 0
  }

  lemma FindName(es: seq<Entry>, name: seq<Byte>)
    ensures Find(es, name) < |es| <==> name in MapOf(es)
    ensures Find(es, name) < |es| ==> MapOf(es)[name] == es[Find(es, name)].sector
  {
    if name in Names(es) {
      var k :| 0 <= k < |es| && es[k].used && es[k].name == name;
    }
  }

  lemma FindUnique(es: seq<Entry>, k: nat)
    requires Good(es) && k < |es| && es[k].used
    ensures Find(es, es[k].name) == k
  {
  }

  /** ES with entry K set to E, or E added at the end. */
  function Set(es: seq<Entry>, k: nat, e: Entry): seq<Entry>
    requires k <= |es|
  {
    if k < |es| then es[k := e] else es + [e]
  }

  /** An entry in use is in the map. */
  lemma MapAt(es: seq<Entry>, k: nat)
    requires Good(es) && k < |es| && es[k].used
    ensures es[k].name in MapOf(es) && MapOf(es)[es[k].name] == es[k].sector
  {
    hide Find, MapOf;
    FindUnique(es, k);
    FindName(es, es[k].name);
  }

  /** A name in the map is that of an entry in use. */
  lemma MapHas(es: seq<Entry>, n: seq<Byte>) returns (k: nat)
    requires n in MapOf(es)
    ensures k < |es| && es[k].used && es[k].name == n
  {
    hide Find;
    FindName(es, n);
    k := Find(es, n);
  }

  lemma AddedGood(es: seq<Entry>, k: nat, e: Entry)
    requires Good(es) && k <= |es| && (k < |es| ==> !es[k].used)
    requires e.used && 1 <= |e.name| <= NAME_MAX && Find(es, e.name) == |es|
    ensures Good(Set(es, k, e))
  {
  }

  lemma AddedName(es: seq<Entry>, k: nat, e: Entry, n: seq<Byte>)
    requires Good(es) && k <= |es| && (k < |es| ==> !es[k].used) && e.used && Good(Set(es, k, e))
    ensures n in MapOf(Set(es, k, e)) <==> n in MapOf(es) || n == e.name
    ensures n in MapOf(Set(es, k, e)) ==> MapOf(Set(es, k, e))[n] == if n == e.name then e.sector else MapOf(es)[n]
  {
    hide MapOf, Good;
    var es' := Set(es, k, e);
    MapAt(es', k);
    if n in MapOf(es) {
      var j := MapHas(es, n);
      MapAt(es, j);
      MapAt(es', j);
    }
    if n in MapOf(es') && n != e.name {
      var j := MapHas(es', n);
      MapAt(es, j);
    }
  }

  /** Adding a name in a free entry, or at the end, adds it to the map. */
  lemma Added(es: seq<Entry>, k: nat, e: Entry)
    requires Good(es) && k <= |es| && (k < |es| ==> !es[k].used)
    requires e.used && 1 <= |e.name| <= NAME_MAX && Find(es, e.name) == |es|
    ensures Good(Set(es, k, e)) && MapOf(Set(es, k, e)) == MapOf(es)[e.name := e.sector]
  {
    hide MapOf, Good, Set, Find;
    AddedGood(es, k, e);
    var es' := Set(es, k, e);
    forall n
      ensures n in MapOf(es') <==> n in MapOf(es) || n == e.name
      ensures n in MapOf(es') ==> MapOf(es')[n] == if n == e.name then e.sector else MapOf(es)[n]
    {
      AddedName(es, k, e, n);
    }
    assert MapOf(es') == MapOf(es)[e.name := e.sector];
  }

  lemma RemovedName(es: seq<Entry>, k: nat, e: Entry, n: seq<Byte>)
    requires Good(es) && k < |es| && es[k].used && !e.used && Good(es[k := e])
    ensures n in MapOf(es[k := e]) <==> n in MapOf(es) && n != es[k].name
    ensures n in MapOf(es[k := e]) ==> MapOf(es[k := e])[n] == MapOf(es)[n]
  {
    hide MapOf;
    var es' := es[k := e];
    if n in MapOf(es') {
      var j := MapHas(es', n);
      MapAt(es', j);
      MapAt(es, j);
    } else if n in MapOf(es) && n != es[k].name {
      var j := MapHas(es, n);
      MapAt(es', j);
    }
  }

  /** Marking an entry as free takes its name out of the map. */
  lemma Removed(es: seq<Entry>, k: nat, e: Entry)
    requires Good(es) && k < |es| && es[k].used && !e.used
    ensures Good(es[k := e]) && MapOf(es[k := e]) == MapOf(es) - {es[k].name}
  {
    hide MapOf;
    var es' := es[k := e];
    assert Good(es');
    hide Good;
    forall n
      ensures n in MapOf(es') <==> n in MapOf(es) && n != es[k].name
      ensures n in MapOf(es') ==> MapOf(es')[n] == MapOf(es)[n]
    {
      RemovedName(es, k, e, n);
    }
    assert MapOf(es') == MapOf(es) - {es[k].name};
  }

  /** A directory as it is created, all zeros, has no names. */
  lemma FreshEmpty(n: nat)
    ensures Good(Entries(Zeros(ENTRY_SIZE * n))) && MapOf(Entries(Zeros(ENTRY_SIZE * n))) == map[]
  {
    var es := Entries(Zeros(ENTRY_SIZE * n));
    assert forall k | 0 <= k < |es| :: !es[k].used;
  }

  const SELF: seq<Byte> := [46]
  const PARENT: seq<Byte> := [46, 46]

  predicate Listed(e: Entry) {
    e.used && e.name != SELF && e.name != PARENT
  }

  /** The names that a walk from entry K on gives. */
  function ListFrom(es: seq<Entry>, k: nat): seq<seq<Byte>>
    requires k <= |es|
    decreases |es| - k
  {
    if k == |es| then [] else (if Listed(es[k]) then [es[k].name] else []) + ListFrom(es, k + 1)
  }

  /** An entry from K on is listed under name N. */
  ghost predicate Occurs(es: seq<Entry>, k: nat, n: seq<Byte>) {
    exists j :: k <= j < |es| && Listed(es[j]) && es[j].name == n
  }

  lemma OccursNext(es: seq<Entry>, k: nat, n: seq<Byte>)
    requires k < |es|
    ensures Occurs(es, k, n) <==> (Listed(es[k]) && es[k].name == n) || Occurs(es, k + 1, n)
  {
  }

  lemma {:induction false} ListMembers(es: seq<Entry>, k: nat, n: seq<Byte>)
    requires k <= |es|
    ensures n in ListFrom(es, k) <==> Occurs(es, k, n)
    decreases |es| - k
  {
    if k < |es| {
      OccursNext(es, k, n);
      hide Occurs, Listed;
      ListMembers(es, k + 1, n);
    }
  }

  lemma {:induction false} ListDistinct(es: seq<Entry>, k: nat)
    requires Good(es) && k <= |es|
    ensures Distinct(ListFrom(es, k))
    decreases |es| - k
  {
    if k < |es| {
      ListDistinct(es, k + 1);
      if Listed(es[k]) {
        ListMembers(es, k + 1, es[k].name);
        assert es[k].name !in ListFrom(es, k + 1);
      }
    }
  }

  /** A walk gives every name but the two links, and each once. */
  lemma ListIsMap(es: seq<Entry>)
    requires Good(es)
    ensures Distinct(ListFrom(es, 0))
    ensures forall n :: n in ListFrom(es, 0) <==> n in MapOf(es) && n != SELF && n != PARENT
  {
    ListDistinct(es, 0);
    forall n
      ensures n in ListFrom(es, 0) <==> n in MapOf(es) && n != SELF && n != PARENT
    {
      ListMembers(es, 0, n);
      if n in MapOf(es) && n != SELF && n != PARENT {
        var k :| 0 <= k < |es| && es[k].used && es[k].name == n;
        assert Listed(es[k]);
      }
    }
  }

  // The operations.

  lemma SliceIsEntry(c: seq<Byte>, k: nat)
    requires |c| % ENTRY_SIZE == 0 && k <= |c| / ENTRY_SIZE
    ensures var s := Inode.Slice(c, ENTRY_SIZE * k, ENTRY_SIZE);
            if k < |Entries(c)| then |s| == ENTRY_SIZE && Decoded(s) == Entries(c)[k]
                && s == c[ENTRY_SIZE * k..ENTRY_SIZE * k + ENTRY_SIZE]
            else s == []
  {
    hide Decoded;
  }

  /** Writing an entry into a file with contents C, M the map of free sectors: all of it or nothing. */
  lemma EntryWritten(c: seq<Byte>, m: seq<bool>, denied: bool, data: seq<Byte>, k: nat)
    requires |c| % ENTRY_SIZE == 0 && |data| == ENTRY_SIZE && k <= |c| / ENTRY_SIZE
    ensures var (c', _, n) := IdealWrite(c, m, denied, data, ENTRY_SIZE * k);
            && |c'| % ENTRY_SIZE == 0
            && (n == ENTRY_SIZE <==> CanWrite(c, CountFree(m), denied, k))
            && (n == ENTRY_SIZE ==>
                  && |c'| == (if k < |Entries(c)| then |c| else |c| + ENTRY_SIZE)
                  && Entries(c') == Set(Entries(c), k, Decoded(data)))
            && (n != ENTRY_SIZE ==> c' == c)
  {
    hide Decoded, NewSectors, CountFree, Take;
    EntriesWritten(c, data, k);
    assert ENTRY_SIZE * k + ENTRY_SIZE > |c| ==> ENTRY_SIZE * k == |c|;
  }

  /** There is room for entry K: it is in the file already, or the file can grow. */
  ghost predicate CanWrite(c: seq<Byte>, free: nat, denied: bool, k: nat) {
    !denied && (k < |Entries(c)| || 0 <= NewSectors(|c|, ENTRY_SIZE) <= free)
  }

  lemma EntryReachable(length: nat, k: nat)
    requires length % ENTRY_SIZE == 0 && length <= MAX_FILE && k <= length / ENTRY_SIZE
    ensures Inode.Reachable(length, ENTRY_SIZE, ENTRY_SIZE * k)
    ensures k < length / ENTRY_SIZE ==> ENTRY_SIZE * k + ENTRY_SIZE <= length
  {
  }

  /** One more entry is within the largest file, or else the file does not grow. */
  ghost predicate HasPlace(length: nat, free: nat, denied: bool) {
    length + ENTRY_SIZE <= MAX_FILE || denied || NewSectors(length, ENTRY_SIZE) > free
  }

  lemma EntryWritable(c: seq<Byte>, free: nat, denied: bool, k: nat)
    requires |c| % ENTRY_SIZE == 0 && k <= |c| / ENTRY_SIZE && |c| <= MAX_FILE
    requires k < |c| / ENTRY_SIZE || HasPlace(|c|, free, denied)
    ensures Writable(|c|, free, denied, ENTRY_SIZE, ENTRY_SIZE * k)
  {
    hide NewSectors;
  }

  class Dir {
    const vol: Volume
    const f: SectorNo
    var pos: nat

    ghost predicate Valid()
      reads this, vol
    {
      && vol.Valid() && f in vol.inodes && f != FREE_MAP_SECTOR
      && |vol.Contents(f)| % ENTRY_SIZE == 0
      && Good(Entries(vol.Contents(f)))
      && pos % ENTRY_SIZE == 0 && pos <= |vol.Contents(f)|
    }

    ghost function Slots(): seq<Entry>
      requires Valid()
      reads this, vol
    {
      Entries(vol.Contents(f))
    }

    /** The map from names to sectors that the directory stands for. */
    ghost function Model(): map<seq<Byte>, SectorNo>
      requires Valid()
      reads this, vol
    {
      MapOf(Slots())
    }

    /** Opens the directory that file F of the volume is. */
    constructor (vol: Volume, f: SectorNo)
      requires vol.Valid() && f in vol.inodes && f != FREE_MAP_SECTOR && Good(Entries(vol.Contents(f)))
      requires |vol.Contents(f)| % ENTRY_SIZE == 0
      ensures Valid() && this.vol == vol && this.f == f && pos == 0
    {
      this.vol, this.f, pos := vol, f, 0;
    }

    /** The end of the last entry is never the end of the largest file, so that every entry can be asked for. */
    lemma EntriesReachable(k: nat)
      requires Valid() && k <= |Slots()|
      ensures Inode.Reachable(vol.inodes[f].length, ENTRY_SIZE, ENTRY_SIZE * k)
      ensures k < |Slots()| ==> ENTRY_SIZE * k + ENTRY_SIZE <= |vol.Contents(f)|
      ensures |vol.Contents(f)| <= MAX_FILE
    {
      hide Ok, ContentsOf, Good, Decoded, Inode.Saved, Inode.MapPlaced, Inode.Reachable;
      vol.LengthFits(f);
      EntryReachable(|vol.Contents(f)|, k);
    }

    /** Searches the entries for NAME.  E is the entry's bytes and K its place. */
    method Lookup(name: Name) returns (found: bool, e: seq<Byte>, k: nat)
      requires Valid()
      ensures found <==> name in Model()
      ensures found ==> |e| == ENTRY_SIZE && k < |Slots()| && Slots()[k].used && Slots()[k].name == name
                        && Slots()[k] == Decoded(e) && e == vol.Contents(f)[ENTRY_SIZE * k..ENTRY_SIZE * k + ENTRY_SIZE]
                        && Decoded(e).sector == Model()[name]
    {
      hide Ok, ContentsOf, Entries, Decoded, Inode.Slice, Inode.Reachable, Inode.Saved, Inode.MapPlaced,
           Good, MapOf, Find;
      ghost var es := Slots();
      k := 0;
      SliceIsEntry(vol.Contents(f), 0);
      EntriesReachable(0);
      e := vol.ReadAt(f, ENTRY_SIZE, 0);
      while |e| == ENTRY_SIZE
        invariant k <= |es|
        invariant e == Inode.Slice(vol.Contents(f), ENTRY_SIZE * k, ENTRY_SIZE)
        invariant |e| == ENTRY_SIZE <==> k < |es|
        invariant k < |es| ==> Decoded(e) == es[k]
        invariant forall j | 0 <= j < k :: !(es[j].used && es[j].name == name)
        decreases |es| - k
      {
        SliceIsEntry(vol.Contents(f), k);
        var entry := Decoded(e);
        if entry.used && entry.name == name {
          MapAt(es, k);
          return true, e, k;
        }
        k := k + 1;
        SliceIsEntry(vol.Contents(f), k);
        EntriesReachable(k);
        e := vol.ReadAt(f, ENTRY_SIZE, ENTRY_SIZE * k);
      }
      NoneFound(es, name);
      return false, e, k;
    }

    /** The place of the first entry not in use, and the bytes last read: that entry, or the last one, or JUNK if
        there is none. */
    method FindSlot(junk: seq<Byte>) returns (k: nat, e: seq<Byte>)
      requires Valid() && |junk| == ENTRY_SIZE
      ensures k == FindFree(Slots()) && |e| == ENTRY_SIZE
    {
      hide Ok, ContentsOf, Entries, Decoded, Inode.Slice, Inode.Reachable, Inode.Saved, Inode.MapPlaced, Good;
      ghost var es := Slots();
      k, e := 0, junk;
      SliceIsEntry(vol.Contents(f), 0);
      EntriesReachable(0);
      var b := vol.ReadAt(f, ENTRY_SIZE, 0);
      while |b| == ENTRY_SIZE
        invariant k <= |es| && |e| == ENTRY_SIZE
        invariant |b| == ENTRY_SIZE <==> k < |es|
        invariant k < |es| ==> Decoded(b) == es[k]
        invariant forall j | 0 <= j < k :: es[j].used
        decreases |es| - k
      {
        e := b;
        if !Decoded(b).used {
          return;
        }
        k := k + 1;
        SliceIsEntry(vol.Contents(f), k);
        EntriesReachable(k);
        b := vol.ReadAt(f, ENTRY_SIZE, ENTRY_SIZE * k);
      }
    }

    /** Adds NAME for SECTOR, in the first free entry or else at the end, for which the tables must then have a place.
        JUNK is whatever was in the buffer for entries. */
    method Add(name: Name, sector: SectorNo, junk: seq<Byte>) returns (ok: bool)
      requires Valid() && |junk| == ENTRY_SIZE
      requires 1 <= |name| <= NAME_MAX && name !in Model() && FindFree(Slots()) == |Slots()|
           ==> HasPlace(|vol.Contents(f)|, CountFree(vol.freeMap), vol.inodes[f].denyWriteCnt > 0)
      modifies vol
      ensures Valid() && RestSame(old(vol.Now()), vol.Now(), f)
      ensures ok <==> 1 <= |name| <= NAME_MAX && name !in old(Model())
                      && old(CanWrite(vol.Contents(f), CountFree(vol.freeMap), vol.inodes[f].denyWriteCnt > 0,
                          FindFree(Slots())))
      ensures ok ==> Model() == old(Model())[name := sector]
      ensures ok ==> |Slots()| == if old(FindFree(Slots())) < old(|Slots()|) then old(|Slots()|) else old(|Slots()|) + 1
      ensures !ok ==> vol.Contents(f) == old(vol.Contents(f))
    {
      hide Ok, ContentsOf, Entries, Decoded, Good, MapOf, Find, FindFree, RestSame, CanWrite, IdealWrite, CountFree,
           Set, Inode.Writable, HasPlace;
      Unchanged(vol.Now(), f);
      if name == [] || |name| > NAME_MAX {
        return false;
      }
      var found, _, _ := Lookup(name);
      if found {
        return false;
      }
      var k, e := FindSlot(junk);
      ghost var c, es := vol.Contents(f), Slots();
      EntriesReachable(k);
      EntryWritable(c, CountFree(vol.freeMap), vol.inodes[f].denyWriteCnt > 0, k);
      var raw := NameField(e[NAME_OFS..USE_OFS], name);
      var data := Encoded(sector, raw, true);
      EncodedMeans(sector, raw, true);
      NameFieldMeans(e[NAME_OFS..USE_OFS], name);
      FindName(es, name);
      SlotFree(es);
      Added(es, k, Entry(true, name, sector));
      SetLength(es, k, Entry(true, name, sector));
      EntryWritten(c, vol.freeMap, vol.inodes[f].denyWriteCnt > 0, data, k);
      var n := vol.WriteAt(f, data, ENTRY_SIZE * k);
      ok := n == ENTRY_SIZE;
    }

    /** Takes NAME out.  OPENS tells whether its inode could be opened. */
    method Remove(name: Name, opens: bool) returns (ok: bool)
      requires Valid()
      modifies vol
      ensures Valid() && RestSame(old(vol.Now()), vol.Now(), f)
      ensures ok <==> name in old(Model()) && opens && old(vol.inodes[f].denyWriteCnt) == 0
      ensures ok ==> Model() == old(Model()) - {name}
      ensures |vol.Contents(f)| == old(|vol.Contents(f)|)
      ensures !ok ==> vol.Contents(f) == old(vol.Contents(f))
    {
      hide Ok, ContentsOf, Entries, Decoded, Good, MapOf, Find, FindFree, RestSame, IdealWrite, CountFree, NewSectors,
           Inode.Writable;
      Unchanged(vol.Now(), f);
      var found, e, k := Lookup(name);
      if !found || !opens {
        return false;
      }
      ghost var c, es := vol.Contents(f), Slots();
      EntriesReachable(k);
      EntryWritable(c, CountFree(vol.freeMap), vol.inodes[f].denyWriteCnt > 0, k);
      var data := e[USE_OFS := 0];
      Cleared(e);
      Removed(es, k, Decoded(data));
      EntryWritten(c, vol.freeMap, vol.inodes[f].denyWriteCnt > 0, data, k);
      var n := vol.WriteAt(f, data, ENTRY_SIZE * k);
      ok := n == ENTRY_SIZE;
    }

    /** The name of the next entry to list. */
    method ReadDir() returns (ok: bool, name: seq<Byte>)
      requires Valid()
      modifies this`pos
      ensures Valid()
      ensures var rest := ListFrom(Slots(), old(pos) / ENTRY_SIZE);
              if rest == [] then !ok else ok && name == rest[0] && ListFrom(Slots(), pos / ENTRY_SIZE) == rest[1..]
    {
      hide Ok, ContentsOf, Entries, Decoded, Inode.Slice, Inode.Reachable, Inode.Saved, Inode.MapPlaced, Good, Listed;
      ghost var c, es := vol.Contents(f), Slots();
      ghost var k := pos / ENTRY_SIZE;
      ghost var rest := ListFrom(es, k);
      name := [];
      SliceIsEntry(c, k);
      EntriesReachable(k);
      var e := vol.ReadAt(f, ENTRY_SIZE, pos);
      while |e| == ENTRY_SIZE
        invariant Valid() && k <= |es| && pos == ENTRY_SIZE * k
        invariant |e| == ENTRY_SIZE <==> k < |es|
        invariant k < |es| ==> Decoded(e) == es[k]
        invariant ListFrom(es, k) == rest
        decreases |es| - k
      {
        pos := pos + ENTRY_SIZE;
        k := k + 1;
        var entry := Decoded(e);
        if Listed(entry) {
          assert rest == [entry.name] + ListFrom(es, k);
          return true, entry.name;
        }
        SliceIsEntry(c, k);
        EntriesReachable(k);
        e := vol.ReadAt(f, ENTRY_SIZE, pos);
      }
      return false, name;
    }

    /** Lists the directory from its start. */
    method ListAll() returns (names: seq<seq<Byte>>)
      requires Valid() && pos == 0
      modifies this`pos
      ensures Valid() && Distinct(names)
      ensures forall n :: n in names <==> n in Model() && n != SELF && n != PARENT
    {
      hide Ok, ContentsOf, Entries, Good, MapOf, ListFrom;
      ghost var es := Slots();
      names := [];
      var more := true;
      while more
        invariant Valid() && Slots() == es
        invariant if more then names + ListFrom(es, pos / ENTRY_SIZE) == ListFrom(es, 0) else names == ListFrom(es, 0)
        decreases if more then 1 + |ListFrom(es, 0)| - |names| else 0
      {
        ghost var rest := ListFrom(es, pos / ENTRY_SIZE);
        var ok, name := ReadDir();
        if ok {
          assert names + rest == names + [rest[0]] + rest[1..];
          names := names + [name];
        } else {
          more := false;
        }
      }
      ListIsMap(es);
    }
  }

  lemma Unchanged(v: View, f: SectorNo)
    requires Ok(v) && f in v.inodes
    ensures RestSame(v, v, f)
  {
  }

  lemma SlotFree(es: seq<Entry>)
    ensures FindFree(es) < |es| ==> !es[FindFree(es)].used
  {
  }

  lemma SetLength(es: seq<Entry>, k: nat, e: Entry)
    requires k <= |es|
    ensures |Set(es, k, e)| == if k < |es| then |es| else |es| + 1
  {
  }

  lemma Cleared(e: seq<Byte>)
    requires |e| == ENTRY_SIZE
    ensures !Decoded(e[USE_OFS := 0]).used
  {
  }

  lemma NoneFound(es: seq<Entry>, name: seq<Byte>)
    requires forall j | 0 <= j < |es| :: !(es[j].used && es[j].name == name)
    ensures name !in MapOf(es)
  {
  }
}
