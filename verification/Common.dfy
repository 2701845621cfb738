/** Small things that several modules use. */
module Common {

  const TWO32 := 0x1_0000_0000
  const TWO64 := 0x1_0000_0000_0000_0000
  const INT_MAX := 0x7fff_ffff

  datatype Option<+X> = None | Some(value: X)

  function Max(x: int, y: int): int {
    if x < y then y else x
  }

  function Power(b: nat, k: nat): nat {
    if k == 0 then 1 else b * Power(b, k - 1)
  }

  ghost predicate Distinct<X>(s: seq<X>) {
    forall i, j | 0 <= i < j < |s| :: s[i] != s[j]
  }

  /** What S means as a string in C: the elements before the first NUL. */
  function CString<X(==)>(s: seq<X>, nul: X): seq<X> {
    if s == [] || s[0] == nul then [] else [s[0]] + CString(s[1..], nul)
  }

  lemma {:induction false} CStringIs<X>(s: seq<X>, nul: X, n: nat)
    requires n < |s| && s[n] == nul && forall i | 0 <= i < n :: s[i] != nul
    ensures CString(s, nul) == s[..n]
  {
    if n > 0 {
      CStringIs(s[1..], nul, n - 1);
      assert s[..n] == [s[0]] + s[1..][..n - 1];
    }
  }
}
