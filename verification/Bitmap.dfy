/** A bitmap packed into 32-bit words, and the sequence of booleans it stands for. */
module Bitmap {

  const ELEM_BITS := 32

  datatype Found = Missing | At(idx: nat)

  /** All of the CNT booleans of S at I exist and are V. */
  ghost predicate Fits(s: seq<bool>, i: int, cnt: nat, v: bool) {
    0 <= i && i + cnt <= |s| && forall k | i <= k < i + cnt :: s[k] == v
  }

  /** S with the CNT booleans at START set to V. */
  function Filled(s: seq<bool>, start: nat, cnt: nat, v: bool): (r: seq<bool>)
    requires start + cnt <= |s|
    ensures |r| == |s|
    ensures forall k | 0 <= k < |s| :: r[k] == if start <= k < start + cnt then v else s[k]
  {
    s[..start] + seq(cnt, _ => v) + s[start + cnt..]
  }

  /** FOUND is the least place at or after START where CNT booleans V are, if there is one. */
  ghost predicate FirstFit(s: seq<bool>, start: nat, cnt: nat, v: bool, found: Found) {
    match found
    case Missing => forall i | start <= i :: !Fits(s, i, cnt, v)
    case At(idx) => start <= idx && Fits(s, idx, cnt, v) && forall i | start <= i < idx :: !Fits(s, i, cnt, v)
  }

  // Words.

  function And(x: bv32, y: bv32): bv32 { x & y }
  function Or(x: bv32, y: bv32): bv32 { x | y }
  function AndNot(x: bv32, y: bv32): bv32 { x & !y }

  /** One, shifted left K times. */
  function Mask(k: nat): bv32
    requires k < ELEM_BITS
  {
    if k == 0 then 1 else Mask(k - 1) << 1
  }

  predicate Bit(w: bv32, k: nat)
    requires k < ELEM_BITS
  {
    And(w, Mask(k)) != 0
  }

  lemma MaskLater(k: nat)
    requires k + 4 < ELEM_BITS
    ensures Mask(k + 4) == Mask(k) << 4
  {
    assert Mask(k + 2) == Mask(k) << 2;
  }

  lemma {:induction false} MaskNonZero(k: nat)
    requires k < ELEM_BITS
    ensures Mask(k) != 0
    decreases ELEM_BITS - k
  {
    if k < 31 {
      MaskNonZero(k + 1);
    } else {
      assert Mask(1) == 2;
      assert Mask(3) == 8;
      MaskLater(3);
      MaskLater(7);
      MaskLater(11);
      MaskLater(15);
      MaskLater(19);
      MaskLater(23);
      MaskLater(27);
    }
  }

  lemma {:induction false} MasksDisjoint(j: nat, k: nat)
    requires j < k < ELEM_BITS
    ensures And(Mask(j), Mask(k)) == 0
  {
    if j > 0 {
      MasksDisjoint(j - 1, k - 1);
    }
  }

  function Marked(w: bv32, k: nat): bv32
    requires k < ELEM_BITS
  {
    Or(w, Mask(k))
  }

  function Cleared(w: bv32, k: nat): bv32
    requires k < ELEM_BITS
  {
    AndNot(w, Mask(k))
  }

  lemma MarkedSame(w: bv32, k: nat)
    requires k < ELEM_BITS && Mask(k) != 0
    ensures Bit(Marked(w, k), k)
  {
  }

  lemma ClearedSame(w: bv32, k: nat)
    requires k < ELEM_BITS
    ensures !Bit(Cleared(w, k), k)
  {
  }

  lemma OrApart(w: bv32, x: bv32, y: bv32)
    requires And(x, y) == 0
    ensures And(Or(w, y), x) == And(w, x)
  {
  }

  lemma AndNotApart(w: bv32, x: bv32, y: bv32)
    requires And(x, y) == 0
    ensures And(AndNot(w, y), x) == And(w, x)
  {
  }

  lemma MarkedOther(w: bv32, j: nat, k: nat)
    requires j < ELEM_BITS && k < ELEM_BITS && And(Mask(j), Mask(k)) == 0
    ensures Bit(Marked(w, k), j) == Bit(w, j)
  {
    hide Mask, And, Or;
    OrApart(w, Mask(j), Mask(k));
  }

  lemma ClearedOther(w: bv32, j: nat, k: nat)
    requires j < ELEM_BITS && k < ELEM_BITS && And(Mask(j), Mask(k)) == 0
    ensures Bit(Cleared(w, k), j) == Bit(w, j)
  {
    hide Mask, And, AndNot;
    AndNotApart(w, Mask(j), Mask(k));
  }

  lemma MasksApart(j: nat, k: nat)
    requires j < ELEM_BITS && k < ELEM_BITS && j != k
    ensures And(Mask(j), Mask(k)) == 0
  {
    hide Mask;
    if j < k {
      MasksDisjoint(j, k);
    } else {
      MasksDisjoint(k, j);
      assert And(Mask(j), Mask(k)) == And(Mask(k), Mask(j));
    }
  }

  lemma BitSet(w: bv32, k: nat)
    requires k < ELEM_BITS
    ensures forall j | 0 <= j < ELEM_BITS :: Bit(Marked(w, k), j) == (j == k || Bit(w, j))
    ensures forall j | 0 <= j < ELEM_BITS :: Bit(Cleared(w, k), j) == (j != k && Bit(w, j))
  {
    hide Mask, Bit, Marked, Cleared, And;
    MaskNonZero(k);
    MarkedSame(w, k);
    ClearedSame(w, k);
    forall j | 0 <= j < ELEM_BITS && j != k
      ensures Bit(Marked(w, k), j) == Bit(w, j) == Bit(Cleared(w, k), j)
    {
      MasksApart(j, k);
      MarkedOther(w, j, k);
      ClearedOther(w, j, k);
    }
  }

  /** The first N bits of WORDS, lowest bit of each word first. */
  ghost function Unpacked(words: seq<bv32>, n: nat): (s: seq<bool>)
    requires n <= ELEM_BITS * |words|
    ensures |s| == n
    ensures forall i | 0 <= i < n :: s[i] == Bit(words[i / ELEM_BITS], i % ELEM_BITS)
  {
    seq(n, i requires 0 <= i < n => Bit(words[i / ELEM_BITS], i % ELEM_BITS))
  }

  lemma UnpackedUpdate(words: seq<bv32>, n: nat, idx: nat, v: bool)
    requires n <= ELEM_BITS * |words| && idx < n
    ensures var e, k := idx / ELEM_BITS, idx % ELEM_BITS;
            Unpacked(words[e := if v then Marked(words[e], k) else Cleared(words[e], k)], n)
                == Unpacked(words, n)[idx := v]
  {
    hide Bit, Marked, Cleared;
    var e, k := idx / ELEM_BITS, idx % ELEM_BITS;
    BitSet(words[e], k);
  }

  /** The number of words for N bits. */
  function WordsFor(n: nat): (c: nat)
    ensures n <= ELEM_BITS * c && (c > 0 ==> ELEM_BITS * (c - 1) < n)
  {
    (n + ELEM_BITS - 1) / ELEM_BITS
  }

  class Bits {
    const bitCnt: nat
    const bits: array<bv32>

    ghost predicate Valid()
    {
      bits.Length == WordsFor(bitCnt)
    }

    ghost function Contents(): (s: seq<bool>)
      requires Valid()
      reads bits
      ensures |s| == bitCnt
    {
      Unpacked(bits[..], bitCnt)
    }

    /** A bitmap in the given storage, whatever it holds. */
    constructor (n: nat, buf: array<bv32>)
      requires buf.Length == WordsFor(n)
      modifies buf
      ensures Valid() && bits == buf && bitCnt == n
      ensures forall i | 0 <= i < n :: !Contents()[i]
    {
      bitCnt, bits := n, buf;
      new;
      SetMultiple(0, n, false);
    }

    method Set(idx: nat, value: bool)
      requires Valid() && idx < bitCnt
      modifies bits
      ensures Contents() == old(Contents())[idx := value]
    {
      var e, k := idx / ELEM_BITS, idx % ELEM_BITS;
      UnpackedUpdate(bits[..], bitCnt, idx, value);
      ghost var was := bits[..];
      if value {
        bits[e] := Or(bits[e], Mask(k));
        assert bits[..] == was[e := Marked(was[e], k)];
      } else {
        bits[e] := AndNot(bits[e], Mask(k));
        assert bits[..] == was[e := Cleared(was[e], k)];
      }
    }

    method Test(idx: nat) returns (r: bool)
      requires Valid() && idx < bitCnt
      ensures r == Contents()[idx]
    {
      r := And(bits[idx / ELEM_BITS], Mask(idx % ELEM_BITS)) != 0;
    }

    method SetMultiple(start: nat, cnt: nat, value: bool)
      requires Valid() && start + cnt <= bitCnt
      modifies bits
      ensures Contents() == Filled(old(Contents()), start, cnt, value)
    {
      hide Unpacked;
      for i := 0 to cnt
        invariant forall k | 0 <= k < bitCnt ::
                  Contents()[k] == if start <= k < start + i then value else old(Contents())[k]
      {
        Set(start + i, value);
      }
    }

    method Contains(start: nat, cnt: nat, value: bool) returns (r: bool)
      requires Valid() && start + cnt <= bitCnt
      ensures r <==> exists k :: start <= k < start + cnt && Contents()[k] == value
    {
      hide Unpacked;
      for i := 0 to cnt
        invariant forall k | start <= k < start + i :: Contents()[k] != value
      {
        var bit := Test(start + i);
        if bit == value {
          return true;
        }
      }
      return false;
    }

    method Scan(start: nat, cnt: nat, value: bool) returns (found: Found)
      requires Valid() && start <= bitCnt
      ensures FirstFit(Contents(), start, cnt, value, found)
    {
      hide Unpacked;
      if cnt <= bitCnt {
        var last := bitCnt - cnt;
        var i := start;
        while i <= last
          invariant start <= i
          invariant forall j | start <= j < i :: !Fits(Contents(), j, cnt, value)
        {
          var bad := Contains(i, cnt, !value);
          if !bad {
            return At(i);
          }
          i := i + 1;
        }
      }
      return Missing;
    }

    method ScanAndFlip(start: nat, cnt: nat, value: bool) returns (found: Found)
      requires Valid() && start <= bitCnt
      modifies bits
      ensures FirstFit(old(Contents()), start, cnt, value, found)
      ensures Contents() == if found.Missing? then old(Contents()) else Filled(old(Contents()), found.idx, cnt, !value)
    {
      hide Unpacked;
      found := Scan(start, cnt, value);
      if found.At? {
        SetMultiple(found.idx, cnt, !value);
      }
    }
  }
}
