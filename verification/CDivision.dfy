/** Integer division facts, and division as C does it: toward zero. */
module CDivision {

  lemma DivUnique(x: int, d: int, q: int, r: int)
    requires d > 0 && x == d * q + r && 0 <= r < d
    ensures x / d == q && x % d == r
  {
    var q', r' := x / d, x % d;
    assert x == d * q' + r' && 0 <= r' < d;
    assert d * (q - q') == r' - r;
    if q > q' {
      MulMono(d, 1, q - q');
    } else if q < q' {
      MulMono(d, q - q', -1);
    }
  }

  lemma MulMono(a: int, x: int, y: int)
    requires a >= 0 && x <= y
    ensures a * x <= a * y
  {
  }

  lemma DivAddMultiple(x: int, y: int, d: int)
    requires d > 0
    ensures (x + d * y) / d == x / d + y
  {
    assert x + d * y == d * (x / d + y) + x % d;
    DivUnique(x + d * y, d, x / d + y, x % d);
  }

  lemma DivLess(x: int, d: int, b: int)
    requires d > 0 && x < b * d
    ensures x / d < b
  {
    if x / d >= b {
      MulMono(d, b, x / d);
    }
  }

  lemma DivAtLeast(x: int, d: int, b: int)
    requires d > 0 && b * d <= x
    ensures b <= x / d
  {
    if x / d < b {
      MulMono(d, x / d + 1, b);
    }
  }

  lemma DivDiv(x: int, a: int, b: int)
    requires a > 0 && b > 0
    ensures a * b > 0 && x / a / b == x / (a * b)
  {
    var q, r := x / a, x % a;
    var q', r' := q / b, q % b;
    assert x == a * (b * q' + r') + r;
    assert x == (a * b) * q' + (a * r' + r);
    assert a * r' + r < a * b by {
      MulMono(a, r', b - 1);
    }
    assert a * r' >= 0;
    DivUnique(x, a * b, q', a * r' + r);
  }

  lemma DivAntitone(x: int, d: int, e: int)
    requires 0 < d <= e && 0 <= x
    ensures x / e <= x / d
  {
    assert x / e >= 0;
    MulMono(x / e, d, e);
    DivAtLeast(x, d, x / e);
  }

  function Abs(x: int): nat {
    if x >= 0 then x else -x
  }

  /** Q and R are the quotient and the remainder of division toward zero. */
  ghost predicate TruncatedDivision(n: int, d: int, q: int, r: int) {
    && n == d * q + r
    && Abs(r) < Abs(d)
    && (r != 0 ==> (r < 0 <==> n < 0))
  }

  lemma TruncatedUnique(n: int, d: int, q: int, r: int, q': int, r': int)
    requires d != 0 && TruncatedDivision(n, d, q, r) && TruncatedDivision(n, d, q', r')
    ensures q == q' && r == r'
  {
    assert d * (q - q') == r' - r;
    if q > q' {
      MulMono(Abs(d), 1, q - q');
    } else if q < q' {
      MulMono(Abs(d), q - q', -1);
    }
  }

  /** The quotient and the remainder toward zero, from those of the magnitudes. */
  function TruncDiv(n: int, d: int): int
    requires d != 0
  {
    if (n < 0) == (d < 0) then Abs(n) / Abs(d) else -(Abs(n) / Abs(d))
  }

  function TruncRem(n: int, d: int): int
    requires d != 0
  {
    if n >= 0 then Abs(n) % Abs(d) else -(Abs(n) % Abs(d))
  }

  lemma TruncatedIs(n: int, d: int)
    requires d != 0
    ensures TruncatedDivision(n, d, TruncDiv(n, d), TruncRem(n, d))
  {
    var a: int, b: int := Abs(n), Abs(d);
    var k: int, r: int := a / b, a % b;
    assert a == b * k + r && 0 <= r < b;
    MulNeg(b, k);
    var q := TruncDiv(n, d);
    assert d * q == if n >= 0 then b * k else -(b * k);
  }

  lemma MulNeg(a: int, b: int)
    ensures (-a) * b == -(a * b) && a * (-b) == -(a * b) && (-a) * (-b) == a * b
  {
  }
}
