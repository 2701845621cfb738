/** The map of free sectors: which are taken first, and its bytes in a file. */
module FreeMap {
  import opened Common
  import opened Sectors

  /** The number of sectors that are not marked. */
  function CountFree(m: seq<bool>): (n: nat)
    ensures n <= |m|
  {
    if m == [] then 0 else CountFree(m[..|m| - 1]) + if m[|m| - 1] then 0 else 1
  }

  lemma {:induction false} CountFreePrefix(m: seq<bool>, i: nat, j: nat)
    requires i <= j <= |m|
    ensures CountFree(m[..i]) <= CountFree(m[..j])
    decreases j
  {
    if i < j {
      CountFreePrefix(m, i, j - 1);
      assert m[..j][..j - 1] == m[..j - 1];
    }
  }

  /** Marking one free sector leaves one fewer free. */
  lemma {:induction false} CountMark(m: seq<bool>, i: nat)
    requires i < |m| && !m[i]
    ensures CountFree(m[i := true]) == CountFree(m) - 1
  {
    var n := |m| - 1;
    if i == n {
      assert m[i := true][..n] == m[..n];
    } else {
      CountMark(m[..n], i);
      assert m[i := true][..n] == m[..n][i := true];
    }
  }

  /** M with its first N free sectors marked. */
  function Take(m: seq<bool>, n: nat): (r: seq<bool>)
    ensures |r| == |m|
  {
    seq(|m|, i requires 0 <= i < |m| => m[i] || CountFree(m[..i]) < n)
  }

  /** The first free sector, or |m|. */
  function FirstFree(m: seq<bool>): (s: nat)
    ensures s <= |m|
    ensures s < |m| ==> !m[s]
    ensures forall i | 0 <= i < s :: m[i]
  {
    if m == [] || !m[0] then 0 else FirstFree(m[1..]) + 1
  }

  lemma TakeNone(m: seq<bool>)
    ensures Take(m, 0) == m
  {
  }

  lemma {:induction false} CountTaken(m: seq<bool>, n: nat, i: nat)
    requires i <= |m|
    ensures CountFree(Take(m, n)[..i]) == if CountFree(m[..i]) < n then 0 else CountFree(m[..i]) - n
  {
    if i > 0 {
      CountTaken(m, n, i - 1);
      assert m[..i][..i - 1] == m[..i - 1] && Take(m, n)[..i][..i - 1] == Take(m, n)[..i - 1];
    }
  }

  lemma CountTake(m: seq<bool>, n: nat)
    requires n <= CountFree(m)
    ensures CountFree(Take(m, n)) == CountFree(m) - n
  {
    CountTaken(m, n, |m|);
    assert m[..|m|] == m && Take(m, n)[..|m|] == Take(m, n);
  }

  /** Taking twice is taking at once. */
  lemma TakeTake(m: seq<bool>, a: nat, b: nat)
    ensures Take(Take(m, a), b) == Take(m, a + b)
  {
    forall i | 0 <= i < |m|
      ensures Take(Take(m, a), b)[i] == Take(m, a + b)[i]
    {
      CountTaken(m, a, i);
    }
  }

  lemma {:induction false} NoneBefore(m: seq<bool>, i: nat)
    requires i <= |m| && forall j | 0 <= j < i :: m[j]
    ensures CountFree(m[..i]) == 0
  {
    if i > 0 {
      NoneBefore(m, i - 1);
      assert m[..i][..i - 1] == m[..i - 1];
    }
  }

  lemma SomeBefore(m: seq<bool>, s: nat, i: nat)
    requires s < i <= |m| && !m[s]
    ensures CountFree(m[..i]) > 0
  {
    CountFreePrefix(m, s + 1, i);
    assert m[..s + 1][..s] == m[..s];
  }

  lemma FirstFreeExists(m: seq<bool>)
    ensures FirstFree(m) < |m| <==> CountFree(m) > 0
  {
    hide FirstFree;
    var s := FirstFree(m);
    assert m[..|m|] == m;
    if s < |m| {
      SomeBefore(m, s, |m|);
    } else {
      NoneBefore(m, |m|);
    }
  }

  /** Taking one is marking the first free sector. */
  lemma TakeOne(m: seq<bool>)
    requires CountFree(m) > 0
    ensures FirstFree(m) < |m| && Take(m, 1) == m[FirstFree(m) := true]
  {
    FirstFreeExists(m);
    hide FirstFree;
    var s := FirstFree(m);
    forall i | 0 <= i < |m|
      ensures Take(m, 1)[i] == m[s := true][i]
    {
      if i <= s {
        NoneBefore(m, i);
      } else {
        SomeBefore(m, s, i);
      }
    }
  }

  // The bytes of the map.

  /** The bytes of a bitmap of N bits: whole words of four. */
  function MapBytes(n: nat): nat {
    4 * ((n + 31) / 32)
  }

  /** The bits that a bitmap of N bits does not use in its last word. */
  function Unused(n: nat): nat {
    8 * MapBytes(n) - n
  }

  /** The number whose binary digits are BITS, the least significant first. */
  function Pack(bits: seq<bool>): (x: nat)
    ensures x < Power(2, |bits|)
  {
    if bits == [] then 0 else (if bits[0] then 1 else 0) + 2 * Pack(bits[1..])
  }

  predicate Bit(x: nat, j: nat) {
    if j == 0 then x % 2 == 1 else Bit(x / 2, j - 1)
  }

  lemma PackHalf(bits: seq<bool>)
    requires bits != []
    ensures Pack(bits) / 2 == Pack(bits[1..]) && (Pack(bits) % 2 == 1) == bits[0]
  {
    hide Power;
  }

  lemma {:induction false} PackBit(bits: seq<bool>, j: nat)
    requires j < |bits|
    ensures Bit(Pack(bits), j) == bits[j]
  {
    hide Pack, Power;
    PackHalf(bits);
    if j > 0 {
      PackBit(bits[1..], j - 1);
    }
  }

  lemma ByteSize()
    ensures Power(2, 8) == 256
  {
    assert Power(2, 2) == 4;
    assert Power(2, 4) == 16;
    assert Power(2, 6) == 64;
  }

  function PackByte(bits: seq<bool>): Byte
    requires |bits| == 8
  {
    ByteSize();
    Pack(bits)
  }

  /** The bytes that hold BITS, eight in each: what little-endian words of bits are in memory. */
  function Packed(bits: seq<bool>): (c: seq<Byte>)
    requires |bits| % 8 == 0
    ensures |c| == |bits| / 8
  {
    seq(|bits| / 8, k requires 0 <= k < |bits| / 8 => PackByte(bits[8 * k..8 * k + 8]))
  }

  /** The first N bits that the bytes C hold. */
  function Unpacked(c: seq<Byte>, n: nat): (m: seq<bool>)
    requires n <= 8 * |c|
    ensures |m| == n
  {
    seq(n, i requires 0 <= i < n => Bit(c[i / 8], i % 8))
  }

  /** The bytes written for a bitmap: its bits and, in the last word, whatever is in the unused ones. */
  function Image(m: seq<bool>, pad: seq<bool>): (c: seq<Byte>)
    requires |pad| == Unused(|m|)
    ensures |c| == MapBytes(|m|)
  {
    Packed(m + pad)
  }

  /** A bitmap written to a file is read back, whatever was in the unused bits. */
  lemma ImageRoundTrip(m: seq<bool>, pad: seq<bool>)
    requires |pad| == Unused(|m|)
    ensures Unpacked(Image(m, pad), |m|) == m
  {
    var bits := m + pad;
    forall i | 0 <= i < |m|
      ensures Unpacked(Image(m, pad), |m|)[i] == m[i]
    {
      var k := i / 8;
      PackBit(bits[8 * k..8 * k + 8], i % 8);
      assert bits[8 * k..8 * k + 8][i % 8] == bits[i];
    }
  }
}
