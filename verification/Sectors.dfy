/** Sector-sized values and the index tables stored in them.

    A sector is 512 bytes; read as an index table it holds 128 little-endian 32-bit sector numbers,
    with 0 standing for "no sector". */
module Sectors {

  const SECTOR_SIZE := 512
  const ENTRIES := 128
  /** The largest file: 128 tables of 128 sectors. */
  const MAX_FILE := 128 * 128 * 512

  type Byte = x: int | 0 <= x < 256
  type SectorNo = x: int | 0 <= x < 0x1_0000_0000
  type Sector = s: seq<Byte> | |s| == SECTOR_SIZE witness seq(SECTOR_SIZE, _ => 0)
  type Table = t: seq<SectorNo> | |t| == ENTRIES witness seq(ENTRIES, _ => 0)

  /** A string in C, on disk: no null byte. */
  type Name = s: seq<Byte> | forall i | 0 <= i < |s| :: s[i] != 0

  const ZERO_SECTOR: Sector := Zeros(SECTOR_SIZE)
  const ZERO_TABLE: Table := Zeros(ENTRIES)

  function Zeros(n: nat): (z: seq<Byte>)
    ensures |z| == n
    ensures forall i | 0 <= i < n :: z[i] == 0
  {
    seq(n, _ => 0)
  }

  /** The K-th little-endian byte of X. */
  function ByteOf(x: SectorNo, k: nat): (b: Byte)
    requires k < 4
  {
    (match k
     case 0 => x
     case 1 => x / 0x100
     case 2 => x / 0x1_0000
     case _ => x / 0x100_0000) % 0x100
  }

  /** The 32-bit number stored at bytes 4K to 4K+3. */
  function EntryAt(s: Sector, k: nat): (x: SectorNo)
    requires k < ENTRIES
  {
    var b0: int, b1: int, b2: int, b3: int := s[4 * k], s[4 * k + 1], s[4 * k + 2], s[4 * k + 3];
    b0 + 0x100 * b1 + 0x1_0000 * b2 + 0x100_0000 * b3
  }

  function Encode(t: Table): (s: Sector) {
    seq(SECTOR_SIZE, i requires 0 <= i < SECTOR_SIZE => ByteOf(t[i / 4], i % 4))
  }

  function Decode(s: Sector): (t: Table) {
    seq(ENTRIES, k requires 0 <= k < ENTRIES => EntryAt(s, k))
  }

  lemma BytesOfNumber(x: SectorNo)
    ensures ByteOf(x, 0) + 0x100 * ByteOf(x, 1) + 0x1_0000 * ByteOf(x, 2) + 0x100_0000 * ByteOf(x, 3) == x
  {
  }

  /** A table written to a sector reads back unchanged. */
  lemma DecodeEncode(t: Table)
    ensures Decode(Encode(t)) == t
  {
    forall k | 0 <= k < ENTRIES
      ensures EntryAt(Encode(t), k) == t[k]
    {
      assert (4 * k) / 4 == (4 * k + 1) / 4 == (4 * k + 2) / 4 == (4 * k + 3) / 4 == k;
      assert (4 * k) % 4 == 0 && (4 * k + 1) % 4 == 1 && (4 * k + 2) % 4 == 2 && (4 * k + 3) % 4 == 3;
      BytesOfNumber(t[k]);
    }
  }

  /** Row I of the list S laid out in tables of 128 entries, padded with 0. */
  function Row(s: seq<SectorNo>, i: nat): (t: Table) {
    seq(ENTRIES, j requires 0 <= j < ENTRIES => if ENTRIES * i + j < |s| then s[ENTRIES * i + j] else 0)
  }

  /** Appending to the list only changes the row the new entry falls into. */
  lemma RowAppend(s: seq<SectorNo>, x: SectorNo)
    ensures forall i: nat | ENTRIES * (i + 1) <= |s| :: Row(s + [x], i) == Row(s, i)
    ensures Row(s + [x], |s| / ENTRIES) == Row(s, |s| / ENTRIES)[|s| % ENTRIES := x]
    ensures |s| % ENTRIES == 0 ==> Row(s, |s| / ENTRIES) == ZERO_TABLE
  {
  }

  /** SECTOR with BUF copied over the bytes from OFS on. */
  function Overlay(sector: seq<Byte>, ofs: nat, buf: seq<Byte>): (r: seq<Byte>)
    requires ofs + |buf| <= |sector|
    ensures |r| == |sector|
    ensures forall i | 0 <= i < |r| :: r[i] == if ofs <= i < ofs + |buf| then buf[i - ofs] else sector[i]
  {
    sector[..ofs] + buf + sector[ofs + |buf|..]
  }
}
