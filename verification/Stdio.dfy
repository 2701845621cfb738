/** Number formatting: format_integer, vsnprintf and atoi. */
module Stdio {
  import opened Common
  import CDivision

  const BUF_SIZE := 64
  const INT_MIN := -0x8000_0000

  /** X is the letter after a leading 0, or none. */
  datatype Base = Base(base: nat, digits: string, x: string, group: nat)

  const BASE_D := Base(10, "0123456789", "", 3)
  const BASE_O := Base(8, "01234567", "", 3)
  const BASE_X := Base(16, "0123456789abcdef", "x", 4)
  const BASE_XX := Base(16, "0123456789ABCDEF", "X", 4)

  datatype Conv = Conv(minus: bool, plus: bool, space: bool, pound: bool, zero: bool, group: bool, width: int,
                       precision: int)

  ghost predicate BaseOk(b: Base) {
    && b.base == |b.digits| >= 8 && b.group > 0
    && (forall i, j | 0 <= i < j < |b.digits| :: b.digits[i] != b.digits[j])
    && b.digits[0] == '0' && (forall i | 0 <= i < |b.digits| :: b.digits[i] != ',')
  }

  /** The I-th digit when the digits after 9 start at LETTER. */
  function DigitChar(letter: char, i: nat): char
    requires i < 16 && (letter == 'a' || letter == 'A')
  {
    if i < 10 then '0' + i as char else letter + (i - 10) as char
  }

  lemma DigitsDistinct(digits: string, letter: char)
    requires 8 <= |digits| <= 16 && (letter == 'a' || letter == 'A')
    requires forall i | 0 <= i < |digits| :: digits[i] == DigitChar(letter, i)
    ensures forall i, j | 0 <= i < j < |digits| :: digits[i] != digits[j]
    ensures digits[0] == '0' && forall i | 0 <= i < |digits| :: digits[i] != ','
  {
  }

  lemma BasesOk()
    ensures BaseOk(BASE_D) && BaseOk(BASE_O) && BaseOk(BASE_X) && BaseOk(BASE_XX)
  {
    DigitsDistinct("0123456789", 'a');
    DigitsDistinct("01234567", 'a');
    DigitsDistinct("0123456789abcdef", 'a');
    DigitsDistinct("0123456789ABCDEF", 'A');
  }

  // The digits, lowest first, as they are put into the buffer.

  lemma Shrinks(v: nat, d: nat)
    requires v > 0 && d > 1
    ensures v / d < v
  {
    CDivision.MulMono(v, 2, d);
    CDivision.DivLess(v, d, v);
  }

  function Digits(v: nat, b: Base, grouped: bool, cnt: nat): string
    requires b.base == |b.digits| > 1 && b.group > 0
    decreases v
  {
    if v == 0 then ""
    else
      Shrinks(v, b.base);
      (if grouped && cnt > 0 && cnt % b.group == 0 then "," else "")
      + [b.digits[v % b.base]] + Digits(v / b.base, b, grouped, cnt + 1)
  }

  function Repeat(ch: char, n: int): (s: string)
    ensures |s| == if n > 0 then n else 0
    ensures forall i | 0 <= i < |s| :: s[i] == ch
  {
    if n <= 0 then "" else [ch] + Repeat(ch, n - 1)
  }

  /** Zeros up to PRECISION, or up to one less than the buffer's size. */
  function Zeros(s: string, precision: int): string {
    s + Repeat('0', (if precision < BUF_SIZE - 1 then precision else BUF_SIZE - 1) - |s|)
  }

  function OctalZero(s: string, b: Base, c: Conv): string {
    if c.pound && b.base == 8 && (s == "" || s[|s| - 1] != '0') then s + "0" else s
  }

  /** What is in the buffer before it is written out in reverse. */
  function Body(v: nat, b: Base, c: Conv): string
    requires b.base == |b.digits| > 1 && b.group > 0
  {
    OctalZero(Zeros(Digits(v, b, c.group, 0), if c.precision < 0 then 1 else c.precision), b, c)
  }

  lemma {:induction false} Power8Add(i: nat, j: nat)
    ensures Power(8, i + j) == Power(8, i) * Power(8, j)
  {
    if j > 0 {
      Power8Add(i, j - 1);
      assert Power(8, i + j) == 8 * Power(8, i + (j - 1));
    }
  }

  lemma {:induction false} DigitsBound(v: nat, b: Base, grouped: bool, cnt: nat, k: nat)
    requires BaseOk(b) && v < Power(8, k)
    ensures |Digits(v, b, grouped, cnt)| <= 2 * k
    decreases k
  {
    if v > 0 {
      assert Power(8, k) == 8 * Power(8, k - 1);
      CDivision.DivAntitone(v, 8, b.base);
      CDivision.DivLess(v, 8, Power(8, k - 1));
      hide Power;
      DigitsBound(v / b.base, b, grouped, cnt + 1, k - 1);
    }
  }

  /** The buffer is large enough for every number, precision and combination of flags. */
  lemma BodyFits(v: nat, b: Base, c: Conv)
    requires BaseOk(b) && v < TWO64
    ensures |Body(v, b, c)| <= BUF_SIZE
    ensures |Digits(v, b, c.group, 0)| <= 44
  {
    Power8Add(11, 11);
    assert Power(8, 11) == 0x2_0000_0000 by {
      Power8Add(5, 6);
      Power8Add(5, 1);
      assert Power(8, 2) == 64;
      assert Power(8, 4) == 4096;
      assert Power(8, 5) == 32768;
    }
    DigitsBound(v, b, c.group, 0, 22);
  }

  // How many digits there are.

  /** The characters of S other than commas. */
  function DigitCount(s: string): nat {
    if s == "" then 0 else (if s[0] == ',' then 0 else 1) + DigitCount(s[1..])
  }

  lemma {:induction false} DigitCountConcat(s: string, t: string)
    ensures DigitCount(s + t) == DigitCount(s) + DigitCount(t)
  {
    if s == "" {
      assert s + t == t;
    } else {
      DigitCountConcat(s[1..], t);
      assert (s + t)[1..] == s[1..] + t;
    }
  }

  lemma {:induction false} DigitCountAll(s: string)
    requires forall i | 0 <= i < |s| :: s[i] != ','
    ensures DigitCount(s) == |s|
  {
    if s != "" {
      DigitCountAll(s[1..]);
    }
  }

  /** How many digits V has in base B. */
  function Length(v: nat, b: Base): nat
    requires b.base > 1
  {
    if v == 0 then 0
    else
      Shrinks(v, b.base);
      1 + Length(v / b.base, b)
  }

  /** How many of N digits, from number CNT on, have a comma before them. */
  function Commas(group: nat, cnt: nat, n: nat): nat
    requires group > 0
    decreases n
  {
    if n == 0 then 0 else (if cnt > 0 && cnt % group == 0 then 1 else 0) + Commas(group, cnt + 1, n - 1)
  }

  /** Without the flag there are no commas; with it there are none exactly if all digits are in one group. */
  lemma {:induction false} NoCommas(group: nat, cnt: nat, n: nat)
    requires group > 0
    ensures cnt + n <= group ==> Commas(group, cnt, n) == 0
    ensures cnt <= group < cnt + n ==> Commas(group, cnt, n) > 0
    decreases n
  {
    if n > 0 {
      NoCommas(group, cnt + 1, n - 1);
      if 0 < cnt < group {
        CDivision.DivUnique(cnt, group, 0, cnt);
      } else if cnt == group {
        CDivision.DivUnique(cnt, group, 1, 0);
      }
    }
  }

  /** What one more digit, with the comma before it, adds. */
  lemma DigitCountOne(comma: string, digit: char, rest: string)
    requires (comma == "" || comma == ",") && digit != ','
    ensures var s := comma + [digit] + rest;
            DigitCount(s) == 1 + DigitCount(rest) && |s| == 1 + |comma| + |rest|
  {
    DigitCountConcat(comma + [digit], rest);
    DigitCountConcat(comma, [digit]);
    assert DigitCount([digit]) == 1 && DigitCount(comma) == 0;
  }

  lemma CommasUnfold(b: Base, grouped: bool, cnt: nat, n: nat)
    requires b.group > 0
    ensures (if grouped then Commas(b.group, cnt, n + 1) else 0)
         == |Comma(b, grouped, cnt)| + if grouped then Commas(b.group, cnt + 1, n) else 0
    ensures Comma(b, grouped, cnt) == "" || Comma(b, grouped, cnt) == ","
  {
  }

  /** The highest digit of a number below the base is the number. */
  lemma TopDigit(v: nat, b: Base)
    requires BaseOk(b) && v > 0 && v / b.base == 0
    ensures b.digits[v % b.base] != '0'
  {
    DivMod(v, b.base);
  }

  lemma LengthUnfold(v: nat, b: Base)
    requires b.base > 1 && v > 0
    ensures Length(v, b) == 1 + Length(v / b.base, b)
  {
  }

  /** The digits and commas in the buffer, counted. */
  lemma {:induction false} DigitsCounted(v: nat, b: Base, grouped: bool, cnt: nat)
    requires BaseOk(b)
    ensures var s, n := Digits(v, b, grouped, cnt), Length(v, b);
            DigitCount(s) == n && |s| == n + if grouped then Commas(b.group, cnt, n) else 0
    decreases v
  {
    if v == 0 {
      NoDigits(b, grouped, cnt);
    } else {
      hide Digits, DigitCount, Commas, Comma, Length;
      Shrinks(v, b.base);
      var q := v / b.base;
      DigitsCounted(q, b, grouped, cnt + 1);
      DigitsUnfold(v, b, grouped, cnt);
      LengthUnfold(v, b);
      CommasUnfold(b, grouped, cnt, Length(q, b));
      DigitCountOne(Comma(b, grouped, cnt), b.digits[v % b.base], Digits(q, b, grouped, cnt + 1));
    }
  }

  /** The highest digit is not zero. */
  lemma {:induction false} DigitsTop(v: nat, b: Base, grouped: bool, cnt: nat)
    requires BaseOk(b) && v > 0
    ensures var s := Digits(v, b, grouped, cnt); s != "" && s[|s| - 1] != '0'
    decreases v
  {
    hide Digits, DigitCount, Comma;
    Shrinks(v, b.base);
    var q := v / b.base;
    DigitsUnfold(v, b, grouped, cnt);
    if q == 0 {
      NoDigits(b, grouped, cnt + 1);
      TopDigit(v, b);
    } else {
      DigitsTop(q, b, grouped, cnt + 1);
    }
  }

  /** Before digit number CNT, R digits after J whole groups, there is a comma exactly if R is a whole group. */
  lemma CommaDue(b: Base, cnt: nat, j: nat, r: nat)
    requires b.group > 0 && cnt == b.group * j + r && r <= b.group && (r == 0 ==> cnt == 0)
    ensures Comma(b, true, cnt) == if r == b.group then "," else ""
  {
    if r == b.group {
      CDivision.DivUnique(cnt, b.group, j + 1, 0);
    } else {
      CDivision.DivUnique(cnt, b.group, j, r);
    }
  }

  /** Where the characters up to the next digit are, R places after a comma. */
  lemma CommaPosition(group: nat, r: nat, i: nat)
    requires group > 0 && r <= group && i < if r == group then 2 else 1
    ensures (r + i) % (group + 1) == group <==> r == group && i == 0
  {
    if i == 1 {
      CDivision.DivUnique(r + 1, group + 1, 1, 0);
    } else {
      CDivision.DivUnique(r, group + 1, 0, r);
    }
  }

  lemma CommaPeriod(group: nat, i: nat)
    requires i >= 2
    ensures (group + i) % (group + 1) == (1 + (i - 2)) % (group + 1)
  {
    var g := group + 1;
    CDivision.DivUnique(group + i, g, (i - 1) / g + 1, (i - 1) % g);
  }

  lemma CommaHead(comma: string, digit: char, rest: string, i: nat)
    requires (comma == "," || comma == "") && digit != ',' && i <= |comma|
    ensures (comma + [digit] + rest)[i] == ',' <==> comma == "," && i == 0
  {
  }

  lemma CommaTail(comma: string, digit: char, rest: string, i: nat)
    requires |comma| < i < |comma + [digit] + rest|
    ensures (comma + [digit] + rest)[i] == rest[i - |comma| - 1]
  {
  }

  lemma {:induction false} CommasFrom(v: nat, b: Base, cnt: nat, j: nat, r: nat, i: nat)
    requires BaseOk(b) && cnt == b.group * j + r && r <= b.group && (r == 0 ==> cnt == 0)
    requires i < |Digits(v, b, true, cnt)|
    ensures Digits(v, b, true, cnt)[i] == ',' <==> (r + i) % (b.group + 1) == b.group
    decreases v
  {
    hide Digits, Comma;
    if v == 0 {
      NoDigits(b, true, cnt);
    } else {
      Shrinks(v, b.base);
      DigitsUnfold(v, b, true, cnt);
      CommaDue(b, cnt, j, r);
      var comma, digit, q := Comma(b, true, cnt), b.digits[v % b.base], v / b.base;
      var rest := Digits(q, b, true, cnt + 1);
      if i <= |comma| {
        CommaHead(comma, digit, rest, i);
        CommaPosition(b.group, r, i);
      } else {
        CommaTail(comma, digit, rest, i);
        if r == b.group {
          CommasFrom(q, b, cnt + 1, j + 1, 1, i - 2);
          CommaPeriod(b.group, i);
        } else {
          CommasFrom(q, b, cnt + 1, j, r + 1, i - 1);
        }
      }
    }
  }

  /** Counted from the right, every character after a whole group of digits is a comma, and no other is. */
  lemma CommasPlaced(v: nat, b: Base, i: nat)
    requires BaseOk(b) && i < |Digits(v, b, true, 0)|
    ensures Digits(v, b, true, 0)[i] == ',' <==> i % (b.group + 1) == b.group
  {
    CommasFrom(v, b, 0, 0, 0, i);
  }

  /** How many more digits the # flag gives a number in base 8. */
  function OctalExtra(b: Base, c: Conv): nat {
    if c.pound && b.base == 8 then 1 else 0
  }

  /** How many zeros S, which has no more than the limit's characters, is filled up with. */
  function ZerosAdded(s: string, precision: int): (z: int)
    ensures z >= 0
  {
    Max(0, (if precision < BUF_SIZE - 1 then precision else BUF_SIZE - 1) - |s|)
  }

  lemma ZerosCounted(s: string, precision: int)
    ensures var z := ZerosAdded(s, precision);
            && DigitCount(Zeros(s, precision)) == DigitCount(s) + z
            && (z == 0 ==> Zeros(s, precision) == s)
            && (z > 0 ==> Zeros(s, precision) != "" && Zeros(s, precision)[|Zeros(s, precision)| - 1] == '0')
  {
    var z := Repeat('0', (if precision < BUF_SIZE - 1 then precision else BUF_SIZE - 1) - |s|);
    hide Repeat, DigitCount;
    DigitCountAll(z);
    DigitCountConcat(s, z);
    assert s + "" == s;
  }

  lemma OctalCounted(s: string, b: Base, c: Conv)
    ensures DigitCount(OctalZero(s, b, c)) ==
            DigitCount(s) + if s == "" || s[|s| - 1] != '0' then OctalExtra(b, c) else 0
  {
    DigitCountConcat(s, "0");
    assert DigitCount("0") == 1;
  }

  lemma BodyCounted(v: nat, b: Base, c: Conv)
    requires BaseOk(b) && c.precision >= 0
    ensures var s := Digits(v, b, c.group, 0);
            var z := ZerosAdded(s, c.precision);
            DigitCount(Body(v, b, c)) == Length(v, b) + z + if z == 0 then OctalExtra(b, c) else 0
  {
    hide Zeros, OctalZero, DigitCount, ZerosAdded, Length;
    DigitsCounted(v, b, c.group, 0);
    if v > 0 {
      DigitsTop(v, b, c.group, 0);
    }
    var s := Digits(v, b, c.group, 0);
    ZerosCounted(s, c.precision);
    OctalCounted(Zeros(s, c.precision), b, c);
    if v == 0 {
      NoDigits(b, c.group, 0);
    }
  }

  /** The number has as many digits as the precision asks for exactly if it has them by itself, or if they fit in the
      buffer and no comma, which the code counts as a digit, is written. */
  lemma PrecisionExact(v: nat, b: Base, c: Conv)
    requires BaseOk(b) && v < TWO64 && c.precision >= 0
    ensures DigitCount(Body(v, b, c)) >= c.precision <==>
              || c.precision <= Length(v, b) + OctalExtra(b, c)
              || (c.precision < BUF_SIZE && (!c.group || Length(v, b) <= b.group))
  {
    hide Digits, Length, Commas, Body, DigitCount;
    BodyFits(v, b, c);
    DigitsCounted(v, b, c.group, 0);
    NoCommas(b.group, 0, Length(v, b));
    BodyCounted(v, b, c);
  }

  /** Four digits and a comma count as five. */
  lemma GroupedPrecisionFails()
    ensures DigitCount(Body(1234, BASE_D, PLAIN.(group := true, precision := 5))) == 4
  {
    var c := PLAIN.(group := true, precision := 5);
    BasesOk();
    assert Length(1234, BASE_D) == 4 by {
      assert Length(12, BASE_D) == 2;
    }
    assert Commas(3, 2, 2) == 1;
    assert Commas(3, 0, 4) == 1;
    hide Digits, Length, Commas, Body, DigitCount;
    DigitsCounted(1234, BASE_D, true, 0);
    BodyCounted(1234, BASE_D, c);
  }

  // What the digits mean.

  function Index(s: string, ch: char): (i: nat)
    ensures i <= |s|
    ensures i < |s| ==> s[i] == ch
    ensures forall j | 0 <= j < i :: s[j] != ch
  {
    if s == "" || s[0] == ch then 0 else Index(s[1..], ch) + 1
  }

  /** The number that S, lowest digit first, stands for; commas do not count. */
  function Number(b: Base, s: string): nat {
    if s == "" then 0
    else if s[0] == ',' then Number(b, s[1..])
    else Index(b.digits, s[0]) + b.base * Number(b, s[1..])
  }

  lemma OneMore(b: Base, d: nat, rest: string)
    requires BaseOk(b) && d < b.base
    ensures Number(b, [b.digits[d]] + rest) == d + b.base * Number(b, rest)
    ensures Number(b, "," + ([b.digits[d]] + rest)) == d + b.base * Number(b, rest)
  {
    var s := [b.digits[d]] + rest;
    assert Index(b.digits, b.digits[d]) == d;
    assert s[1..] == rest;
    assert ("," + s)[1..] == s;
  }

  lemma DivMod(v: nat, d: nat)
    requires d > 0
    ensures v % d + d * (v / d) == v
  {
  }

  lemma DigitsOnce(v: nat, b: Base, grouped: bool, cnt: nat)
    requires BaseOk(b) && v > 0
    ensures var s := [b.digits[v % b.base]] + Digits(v / b.base, b, grouped, cnt + 1);
            Digits(v, b, grouped, cnt) == s || Digits(v, b, grouped, cnt) == "," + s
  {
    var rest := Digits(v / b.base, b, grouped, cnt + 1);
    var d := [b.digits[v % b.base]];
    assert "" + d + rest == d + rest;
    assert "," + d + rest == "," + (d + rest);
  }

  lemma {:induction false} DigitsMean(v: nat, b: Base, grouped: bool, cnt: nat)
    requires BaseOk(b)
    ensures Number(b, Digits(v, b, grouped, cnt)) == v
    decreases v
  {
    if v > 0 {
      hide Number, Digits;
      Shrinks(v, b.base);
      var q, r := v / b.base, v % b.base;
      DigitsMean(q, b, grouped, cnt + 1);
      DigitsOnce(v, b, grouped, cnt);
      OneMore(b, r, Digits(q, b, grouped, cnt + 1));
      DivMod(v, b.base);
    } else {
      assert Number(b, "") == 0;
    }
  }

  lemma {:induction false} TrailingZeros(b: Base, s: string, z: string)
    requires BaseOk(b) && forall i | 0 <= i < |z| :: z[i] == '0'
    ensures Number(b, s + z) == Number(b, s)
    decreases |s| + |z|
  {
    if s == "" {
      assert s + z == z;
      if z != "" {
        TrailingZeros(b, "", z[1..]);
        assert "" + z[1..] == z[1..];
        assert Index(b.digits, '0') == 0;
      }
    } else {
      TrailingZeros(b, s[1..], z);
      assert (s + z)[1..] == s[1..] + z;
    }
  }

  /** Whatever the flags, the buffer holds the number's digits. */
  lemma BodyMeans(v: nat, b: Base, c: Conv)
    requires BaseOk(b)
    ensures Number(b, Body(v, b, c)) == v
  {
    hide Number, Digits, Repeat;
    DigitsMean(v, b, c.group, 0);
    var s := Digits(v, b, c.group, 0);
    var p := if c.precision < 0 then 1 else c.precision;
    var z := Repeat('0', (if p < BUF_SIZE - 1 then p else BUF_SIZE - 1) - |s|);
    TrailingZeros(b, s, z);
    TrailingZeros(b, s + z, "0");
  }

  // The whole conversion.

  function Reverse(s: string): (r: string)
    ensures |r| == |s|
  {
    if s == "" then "" else Reverse(s[1..]) + [s[0]]
  }

  function Sign(isSigned: bool, negative: bool, c: Conv): string {
    if !isSigned then ""
    else if c.plus then (if negative then "-" else "+")
    else if c.space then (if negative then "-" else " ")
    else if negative then "-" else ""
  }

  function Prefix(v: nat, b: Base, c: Conv): string {
    if c.pound && v > 0 && b.x != "" then "0" + b.x else ""
  }

  /** Padding before, sign, prefix, zeros, digits, padding after. */
  function Output(v: nat, isSigned: bool, negative: bool, b: Base, c: Conv): string
    requires b.base == |b.digits| > 1 && b.group > 0
  {
    var sign, x, body := Sign(isSigned, negative, c), Prefix(v, b, c), Reverse(Body(v, b, c));
    var pad := c.width - |body| - |x| - |sign|;
    Repeat(' ', if !c.minus && !c.zero then pad else 0) + sign + x
    + Repeat('0', if c.zero then pad else 0) + body + Repeat(' ', if c.minus then pad else 0)
  }

  /** How many characters the number needs. */
  function Need(v: nat, isSigned: bool, negative: bool, b: Base, c: Conv): nat
    requires b.base == |b.digits| > 1 && b.group > 0
  {
    |Sign(isSigned, negative, c)| + |Prefix(v, b, c)| + |Body(v, b, c)|
  }

  /** The field is as wide as asked for, or as the number needs, unless both left adjustment and zeros are asked for
      and there is something to fill; then the filling is written twice. */
  lemma OutputWidth(v: nat, isSigned: bool, negative: bool, b: Base, c: Conv)
    requires BaseOk(b)
    ensures var need, length := Need(v, isSigned, negative, b, c), |Output(v, isSigned, negative, b, c)|;
            && (length == Max(c.width, need) <==> !(c.minus && c.zero) || c.width <= need)
            && (c.minus && c.zero && c.width > need ==> length == 2 * c.width - need)
  {
    hide Body, Sign, Prefix, Reverse;
  }

  /** The number 7 in a field of 5 characters, with both flags, takes 9. */
  lemma BothFlagsFail()
    ensures |Output(7, true, false, BASE_D, PLAIN.(minus := true, zero := true, width := 5))| == 9
  {
    var c := PLAIN.(minus := true, zero := true, width := 5);
    BasesOk();
    assert Digits(7, BASE_D, false, 0) == "7" by {
      assert Digits(0, BASE_D, false, 1) == "";
    }
    assert Repeat('0', 0) == "";
    assert Body(7, BASE_D, c) == "7";
    OutputWidth(7, true, false, BASE_D, c);
  }

  lemma {:induction false} ReverseAt(s: string, i: nat)
    requires i < |s|
    ensures Reverse(s)[i] == s[|s| - 1 - i]
  {
    if i < |s| - 1 {
      ReverseAt(s[1..], i);
    }
  }

  // What a reader sees.

  /** The number that a reader makes of S, highest digit first, after a part worth ACC; commas do not count. */
  function Reads(b: Base, s: string, acc: nat): nat {
    if s == "" then acc
    else if s[0] == ',' then Reads(b, s[1..], acc)
    else Reads(b, s[1..], acc * b.base + Index(b.digits, s[0]))
  }

  lemma {:induction false} ReadsConcat(b: Base, s: string, t: string, acc: nat)
    ensures Reads(b, s + t, acc) == Reads(b, t, Reads(b, s, acc))
    decreases |s|
  {
    if s == "" {
      assert s + t == t;
    } else {
      assert (s + t)[1..] == s[1..] + t;
      hide Index;
      ReadsConcat(b, s[1..], t, if s[0] == ',' then acc else acc * b.base + Index(b.digits, s[0]));
    }
  }

  /** Read from its high end, the buffer is the number that it is from its low end. */
  lemma {:induction false} ReadsReverse(b: Base, s: string)
    ensures Reads(b, Reverse(s), 0) == Number(b, s)
  {
    if s != "" {
      ReadsReverse(b, s[1..]);
      ReadsConcat(b, Reverse(s[1..]), [s[0]], 0);
      ReadsOne(b, s[0], Number(b, s[1..]));
    }
  }

  lemma ReadsOne(b: Base, ch: char, acc: nat)
    ensures Reads(b, [ch], acc) == if ch == ',' then acc else Index(b.digits, ch) + b.base * acc
  {
    assert [ch][1..] == "";
    assert acc * b.base == b.base * acc;
  }

  lemma {:induction false} LeadingZeros(b: Base, z: string, s: string)
    requires BaseOk(b) && forall i | 0 <= i < |z| :: z[i] == '0'
    ensures Reads(b, z + s, 0) == Reads(b, s, 0)
    decreases |z|
  {
    if z == "" {
      assert z + s == s;
    } else {
      assert (z + s)[1..] == z[1..] + s && Index(b.digits, '0') == 0;
      LeadingZeros(b, z[1..], s);
    }
  }

  /** All characters are digits or commas. */
  predicate Numeral(b: Base, s: string) {
    forall i | 0 <= i < |s| :: s[i] == ',' || s[i] in b.digits
  }

  lemma {:induction false} DigitsNumeral(v: nat, b: Base, grouped: bool, cnt: nat)
    requires BaseOk(b)
    ensures Numeral(b, Digits(v, b, grouped, cnt))
    decreases v
  {
    if v > 0 {
      Shrinks(v, b.base);
      DigitsNumeral(v / b.base, b, grouped, cnt + 1);
    }
  }

  lemma BodyNumeral(v: nat, b: Base, c: Conv)
    requires BaseOk(b)
    ensures Numeral(b, Body(v, b, c))
  {
    DigitsNumeral(v, b, c.group, 0);
    hide Digits;
    var zero := b.digits[0];
    assert zero in b.digits;
  }

  lemma {:induction false} ReverseNumeral(b: Base, s: string)
    ensures Numeral(b, s) ==> Numeral(b, Reverse(s))
  {
    if s != "" && Numeral(b, s) {
      assert Numeral(b, s[1..]);
      ReverseNumeral(b, s[1..]);
    }
  }

  /** The output is spaces, the sign, the prefix, digits that read as the number, and spaces.  Spaces come before it
      only without the minus and the zero flag, and after it only with the minus flag; zeros fill the field between. */
  lemma OutputLayout(v: nat, isSigned: bool, negative: bool, b: Base, c: Conv)
    returns (before: nat, sign: string, x: string, digits: string, after: nat)
    requires BaseOk(b)
    ensures Output(v, isSigned, negative, b, c) == Repeat(' ', before) + sign + x + digits + Repeat(' ', after)
    ensures sign == if !isSigned then "" else if negative then "-" else if c.plus then "+"
                    else if c.space then " " else ""
    ensures x == if c.pound && v != 0 && b.x != "" then ['0'] + b.x else ""
    ensures Numeral(b, digits) && Reads(b, digits, 0) == v
    ensures var fill := Max(0, c.width - Need(v, isSigned, negative, b, c));
            && before == (if !c.minus && !c.zero then fill else 0) && after == (if c.minus then fill else 0)
            && |sign| + |x| + |digits| == Need(v, isSigned, negative, b, c) + if c.zero then fill else 0
  {
    hide Body, Reverse, Reads, Repeat, Sign, Prefix, Numeral, Output, Need;
    OutputUnfold(v, isSigned, negative, b, c);
    sign, x := Sign(isSigned, negative, c), Prefix(v, b, c);
    SignIs(v, isSigned, negative, b, c);
    var body := Reverse(Body(v, b, c));
    var pad := c.width - |body| - |x| - |sign|;
    var zeros := Repeat('0', if c.zero then pad else 0);
    before := if !c.minus && !c.zero && pad > 0 then pad else 0;
    after := if c.minus && pad > 0 then pad else 0;
    digits := zeros + body;
    DigitsRead(v, b, c, zeros);
    SameFill(if !c.minus && !c.zero then pad else 0);
    SameFill(if c.minus then pad else 0);
    LayoutJoined(Repeat(' ', before), sign, x, zeros, body, Repeat(' ', after));
  }

  lemma OutputUnfold(v: nat, isSigned: bool, negative: bool, b: Base, c: Conv)
    requires BaseOk(b)
    ensures var sign, x, body := Sign(isSigned, negative, c), Prefix(v, b, c), Reverse(Body(v, b, c));
            var pad := c.width - |body| - |x| - |sign|;
            && Need(v, isSigned, negative, b, c) == |sign| + |x| + |body|
            && Output(v, isSigned, negative, b, c)
               == Repeat(' ', if !c.minus && !c.zero then pad else 0) + sign + x
                  + Repeat('0', if c.zero then pad else 0) + body + Repeat(' ', if c.minus then pad else 0)
  {
    hide Body, Reverse, Repeat, Sign, Prefix;
  }

  lemma SignIs(v: nat, isSigned: bool, negative: bool, b: Base, c: Conv)
    ensures Sign(isSigned, negative, c)
         == if !isSigned then "" else if negative then "-" else if c.plus then "+" else if c.space then " " else ""
    ensures Prefix(v, b, c) == if c.pound && v != 0 && b.x != "" then ['0'] + b.x else ""
  {
  }

  lemma DigitsRead(v: nat, b: Base, c: Conv, zeros: string)
    requires BaseOk(b) && forall i | 0 <= i < |zeros| :: zeros[i] == '0'
    ensures var digits := zeros + Reverse(Body(v, b, c)); Numeral(b, digits) && Reads(b, digits, 0) == v
  {
    hide Body, Reverse, Reads, Number, Numeral;
    BodyMeans(v, b, c);
    ReadsReverse(b, Body(v, b, c));
    LeadingZeros(b, zeros, Reverse(Body(v, b, c)));
    BodyNumeral(v, b, c);
    ReverseNumeral(b, Body(v, b, c));
    ZerosNumeral(b, zeros, Reverse(Body(v, b, c)));
  }

  lemma SameFill(n: int)
    ensures Repeat(' ', n) == Repeat(' ', Max(0, n))
  {
  }

  lemma LayoutJoined(a: string, sign: string, x: string, zeros: string, body: string, z: string)
    ensures a + sign + x + zeros + body + z == a + sign + x + (zeros + body) + z
  {
    assert a + sign + x + zeros + body == a + sign + x + (zeros + body);
  }

  lemma ZerosNumeral(b: Base, zeros: string, body: string)
    requires BaseOk(b) && (forall i | 0 <= i < |zeros| :: zeros[i] == '0') && Numeral(b, body)
    ensures Numeral(b, zeros + body)
  {
    var zero := b.digits[0];
    assert zero in b.digits;
  }

  /** Puts the digits into a buffer of 64 characters and writes them out in reverse. */
  method FormatInteger(v: nat, isSigned: bool, negative: bool, b: Base, c: Conv) returns (out: string)
    requires BaseOk(b) && v < TWO64
    ensures out == Output(v, isSigned, negative, b, c)
  {
    hide Reverse, Repeat, Body, Sign, Prefix;
    var sign := Sign(isSigned, negative, c);
    var x := Prefix(v, b, c);
    var buf, cp := FillBuffer(v, b, c);
    var pad := c.width - cp - |x| - |sign|;
    out := Repeat(' ', if !c.minus && !c.zero then pad else 0);
    out := out + sign + x + Repeat('0', if c.zero then pad else 0);
    var digits := Backwards(buf, cp);
    out := out + digits;
    out := out + Repeat(' ', if c.minus then pad else 0);
  }

  method Backwards(buf: array<char>, cp: nat) returns (out: string)
    requires cp <= buf.Length
    ensures out == Reverse(buf[..cp])
  {
    hide Reverse;
    out := "";
    var k := cp;
    ghost var s := buf[..cp];
    while k > 0
      invariant 0 <= k <= cp && out == Reverse(s)[..cp - k]
    {
      k := k - 1;
      ReverseAt(s, cp - 1 - k);
      out := out + [buf[k]];
    }
  }

  /** No step writes past the end of the buffer. */
  method FillBuffer(v: nat, b: Base, c: Conv) returns (buf: array<char>, cp: nat)
    requires BaseOk(b) && v < TWO64
    ensures buf.Length == BUF_SIZE && cp == |Body(v, b, c)| <= BUF_SIZE && buf[..cp] == Body(v, b, c) && fresh(buf)
  {
    hide Digits, Zeros, Repeat;
    BodyFits(v, b, c);
    buf := new char[BUF_SIZE];
    cp := FillDigits(buf, v, b, c.group);
    var precision := if c.precision < 0 then 1 else c.precision;
    cp := FillZeros(buf, cp, precision);
    if c.pound && b.base == 8 && (cp == 0 || buf[cp - 1] != '0') {
      ghost var was := buf[..cp];
      buf[cp] := '0';
      cp := cp + 1;
      assert buf[..cp] == was + "0";
    }
  }

  method FillZeros(buf: array<char>, start: nat, precision: int) returns (cp: nat)
    requires buf.Length == BUF_SIZE && start <= BUF_SIZE - 1
    modifies buf
    ensures start <= cp <= BUF_SIZE - 1 && buf[..cp] == Zeros(old(buf[..start]), precision)
  {
    hide Repeat;
    cp := start;
    ghost var s := buf[..start];
    var limit := if precision < BUF_SIZE - 1 then precision else BUF_SIZE - 1;
    ghost var n := 0;
    assert s + Repeat('0', 0) == s;
    while cp < precision && cp < BUF_SIZE - 1
      invariant cp == start + n <= BUF_SIZE - 1 && (n > 0 ==> cp <= limit)
      invariant buf[..cp] == s + Repeat('0', n)
    {
      RepeatMore('0', n);
      ghost var was := buf[..cp];
      buf[cp] := '0';
      cp, n := cp + 1, n + 1;
      assert buf[..cp] == was + ['0'];
    }
    RepeatUpTo('0', n, limit - |s|);
  }

  function Comma(b: Base, grouped: bool, cnt: nat): (s: string)
    requires b.group > 0
    ensures |s| <= 1
  {
    if grouped && cnt > 0 && cnt % b.group == 0 then "," else ""
  }

  lemma DigitsUnfold(v: nat, b: Base, grouped: bool, cnt: nat)
    requires b.base == |b.digits| > 1 && b.group > 0 && v > 0
    ensures Digits(v, b, grouped, cnt)
            == Comma(b, grouped, cnt) + [b.digits[v % b.base]] + Digits(v / b.base, b, grouped, cnt + 1)
  {
  }

  method FillDigits(buf: array<char>, v: nat, b: Base, grouped: bool) returns (cp: nat)
    requires BaseOk(b) && buf.Length == BUF_SIZE && |Digits(v, b, grouped, 0)| <= 44
    modifies buf
    ensures cp == |Digits(v, b, grouped, 0)| && buf[..cp] == Digits(v, b, grouped, 0)
  {
    hide Digits, Comma;
    var value: nat, digitCnt: nat := v, 0;
    cp := 0;
    ghost var all := Digits(v, b, grouped, 0);
    assert buf[..0] + all == all;
    while value > 0
      invariant cp <= |all| && buf[..cp] + Digits(value, b, grouped, digitCnt) == all
      decreases value
    {
      Shrinks(value, b.base);
      DigitsUnfold(value, b, grouped, digitCnt);
      ghost var rest := Digits(value / b.base, b, grouped, digitCnt + 1);
      cp := PutDigit(buf, cp, Comma(b, grouped, digitCnt), b.digits[value % b.base], rest, all);
      value := value / b.base;
      digitCnt := digitCnt + 1;
    }
    assert Digits(0, b, grouped, digitCnt) == "" by {
      NoDigits(b, grouped, digitCnt);
    }
  }

  lemma NoDigits(b: Base, grouped: bool, cnt: nat)
    requires b.base == |b.digits| > 1 && b.group > 0
    ensures Digits(0, b, grouped, cnt) == ""
  {
  }

  method PutDigit(buf: array<char>, start: nat, comma: string, digit: char, ghost rest: string, ghost all: string)
    returns (cp: nat)
    requires |all| <= 44 && buf.Length == BUF_SIZE && start <= |all| && |comma| <= 1
    requires buf[..start] + (comma + [digit] + rest) == all
    modifies buf
    ensures cp <= |all| && buf[..cp] + rest == all
  {
    cp := start;
    ghost var before := buf[..cp];
    assert |all| == start + |comma| + 1 + |rest|;
    if comma != "" {
      buf[cp] := comma[0];
      cp := cp + 1;
    }
    assert buf[..cp] == before + comma;
    buf[cp] := digit;
    cp := cp + 1;
    assert buf[..cp] == before + comma + [digit];
  }

  lemma {:induction false} RepeatMore(ch: char, n: nat)
    ensures Repeat(ch, n + 1) == Repeat(ch, n) + [ch]
  {
  }

  lemma RepeatUpTo(ch: char, n: nat, m: int)
    requires n == if m > 0 then m else 0
    ensures Repeat(ch, n) == Repeat(ch, m)
  {
  }

  // atoi.

  datatype Parsed = Value(value: int) | Overflow

  predicate IsSpace(ch: char) {
    ch == ' ' || ch == '\t' || ch == '\n' || ch == '\r' || ch == '\U{0b}' || ch == '\U{0c}'
  }

  predicate IsDigit(ch: char) {
    '0' <= ch <= '9'
  }

  function DigitValue(ch: char): (d: int)
    requires IsDigit(ch)
    ensures 0 <= d < 10
  {
    (ch - '0') as int
  }

  predicate InInt(x: int) {
    INT_MIN <= x <= INT_MAX
  }

  /** The decimal number at the front of S, after a part worth ACC. */
  function Decimal(s: string, acc: int): int {
    if s == "" || !IsDigit(s[0]) then acc else Decimal(s[1..], acc * 10 + DigitValue(s[0]))
  }

  function AfterSpaces(s: string): string {
    if s != "" && IsSpace(s[0]) then AfterSpaces(s[1..]) else s
  }

  /** The negative of the number at the front of S, unless a step on the way leaves the range of an int. */
  function Accumulate(s: string, acc: int): Parsed {
    if s == "" || !IsDigit(s[0]) then Value(acc)
    else
      var d := DigitValue(s[0]);
      if InInt(acc * 10) && InInt(acc * 10 - d) then Accumulate(s[1..], acc * 10 - d) else Overflow
  }

  function Atoi(s: string): Parsed {
    var t := AfterSpaces(s);
    var signed := t != "" && (t[0] == '+' || t[0] == '-');
    var negative := signed && t[0] == '-';
    match Accumulate(if signed then t[1..] else t, 0)
    case Overflow => Overflow
    case Value(x) => if negative then Value(x) else if InInt(-x) then Value(-x) else Overflow
  }

  lemma {:induction false} DecimalGrows(s: string, acc: int)
    requires acc >= 0
    ensures Decimal(s, acc) >= acc
  {
    if s != "" && IsDigit(s[0]) {
      DecimalGrows(s[1..], acc * 10 + DigitValue(s[0]));
    }
  }

  lemma {:induction false} AccumulateExact(s: string, acc: int)
    requires INT_MIN <= -acc <= 0
    ensures Accumulate(s, -acc) == if -Decimal(s, acc) >= INT_MIN then Value(-Decimal(s, acc)) else Overflow
  {
    if s != "" && IsDigit(s[0]) {
      var next := acc * 10 + DigitValue(s[0]);
      DecimalGrows(s[1..], next);
      if -next >= INT_MIN {
        AccumulateExact(s[1..], next);
      }
    }
  }

  /** No step overflows if and only if the number itself is an int. */
  lemma AtoiExact(s: string)
    ensures var t := AfterSpaces(s);
            var signed := t != "" && (t[0] == '+' || t[0] == '-');
            var n := Decimal(if signed then t[1..] else t, 0);
            var x := if signed && t[0] == '-' then -n else n;
            Atoi(s) == if InInt(x) then Value(x) else Overflow
  {
    var t := AfterSpaces(s);
    var signed := t != "" && (t[0] == '+' || t[0] == '-');
    var u := if signed then t[1..] else t;
    DecimalGrows(u, 0);
    AccumulateExact(u, 0);
  }

  method ParseInt(s: string) returns (r: Parsed)
    ensures r == Atoi(s)
  {
    var i := 0;
    assert s[0..] == s;
    while i < |s| && IsSpace(s[i])
      invariant 0 <= i <= |s| && AfterSpaces(s[i..]) == AfterSpaces(s)
    {
      i := i + 1;
    }
    ghost var t := s[i..];
    var negative := false;
    if i < |s| && s[i] == '+' {
      i := i + 1;
    } else if i < |s| && s[i] == '-' {
      negative := true;
      i := i + 1;
    }
    ghost var u := s[i..];
    assert u == if t != "" && (t[0] == '+' || t[0] == '-') then t[1..] else t;
    var value: int := 0;
    while i < |s| && IsDigit(s[i])
      invariant 0 <= i <= |s| && Accumulate(s[i..], value) == Accumulate(u, 0)
    {
      var d := DigitValue(s[i]);
      if !(InInt(value * 10) && InInt(value * 10 - d)) {
        return Overflow;
      }
      value := value * 10 - d;
      i := i + 1;
    }
    if negative {
      return Value(value);
    }
    return if InInt(-value) then Value(-value) else Overflow;
  }

  // Reading back what was written.

  const PLAIN := Conv(false, false, false, false, false, false, 0, -1)

  predicate AllDigits(s: string) {
    forall i | 0 <= i < |s| :: IsDigit(s[i])
  }

  lemma {:induction false} DecimalConcat(s: string, t: string, acc: int)
    requires AllDigits(s)
    ensures Decimal(s + t, acc) == Decimal(t, Decimal(s, acc))
  {
    if s == "" {
      assert s + t == t;
    } else {
      assert (s + t)[0] == s[0] && (s + t)[1..] == s[1..] + t;
      DecimalConcat(s[1..], t, acc * 10 + DigitValue(s[0]));
    }
  }

  lemma DecimalIndex(ch: char)
    requires IsDigit(ch)
    ensures Index(BASE_D.digits, ch) == DigitValue(ch)
  {
    var d := DigitValue(ch);
    assert BASE_D.digits[d] == DigitChar('a', d);
    BasesOk();
  }

  lemma {:induction false} ReverseDigits(s: string)
    requires AllDigits(s)
    ensures AllDigits(Reverse(s)) && Decimal(Reverse(s), 0) == Number(BASE_D, s)
  {
    if s != "" {
      ReverseDigits(s[1..]);
      DecimalIndex(s[0]);
      DecimalConcat(Reverse(s[1..]), [s[0]], 0);
      LastDigit(s[0], Decimal(Reverse(s[1..]), 0));
    }
  }

  lemma LastDigit(ch: char, acc: int)
    requires IsDigit(ch)
    ensures Decimal([ch], acc) == acc * 10 + DigitValue(ch)
  {
    assert [ch][1..] == "";
  }

  lemma {:induction false} DecimalDigits(v: nat, cnt: nat)
    ensures AllDigits(Digits(v, BASE_D, false, cnt))
  {
    if v > 0 {
      DecimalDigits(v / 10, cnt + 1);
      assert BASE_D.digits[v % 10] == DigitChar('a', v % 10);
    }
  }

  /** The decimal form of an int, as the conversion %d writes it. */
  function Rendered(v: int): string {
    Output(if v < 0 then -v else v, true, v < 0, BASE_D, PLAIN)
  }

  lemma RenderedIs(v: int)
    ensures var n := if v < 0 then -v else v;
            && AllDigits(Body(n, BASE_D, PLAIN)) && Body(n, BASE_D, PLAIN) != ""
            && Rendered(v) == (if v < 0 then "-" else "") + Reverse(Body(n, BASE_D, PLAIN))
  {
    var n := if v < 0 then -v else v;
    DecimalDigits(n, 0);
    assert Repeat('0', 1) == "0";
  }

  lemma AtoiDigits(r: string)
    requires r != "" && AllDigits(r)
    ensures InInt(Decimal(r, 0)) ==> Atoi(r) == Value(Decimal(r, 0))
    ensures InInt(-Decimal(r, 0)) ==> Atoi("-" + r) == Value(-Decimal(r, 0))
  {
    hide Decimal, Accumulate, Atoi;
    assert AfterSpaces(r) == r;
    AtoiExact(r);
    var s := "-" + r;
    assert AfterSpaces(s) == s && s[1..] == r;
    AtoiExact(s);
  }

  /** What %d writes, atoi reads, for every int and with no overflow on the way. */
  lemma RoundTrip(v: int)
    requires InInt(v)
    ensures Atoi(Rendered(v)) == Value(v)
  {
    hide Body, Rendered, Reverse, Decimal, Atoi, Number, BaseOk;
    var n := if v < 0 then -v else v;
    RenderedIs(v);
    BasesOk();
    BodyMeans(n, BASE_D, PLAIN);
    ReverseDigits(Body(n, BASE_D, PLAIN));
    var r := Reverse(Body(n, BASE_D, PLAIN));
    AtoiDigits(r);
    assert "" + r == r;
  }

  // vsnprintf.

  /** The first characters of OUT that fit before a null character, and that character. */
  function Stored(buf: string, out: string): string {
    if buf == "" then ""
    else
      var k := if |out| < |buf| - 1 then |out| else |buf| - 1;
      out[..k] + ['\0'] + buf[k + 1..]
  }

  /** The text is cut off where a null character must be, and what is after that is as before. */
  ghost predicate StoredAs(was: string, out: string, now: string) {
    && |now| == |was|
    && (forall i | 0 <= i < |now| - 1 && i < |out| :: now[i] == out[i])
    && (|now| > 0 ==> now[if |out| < |now| then |out| else |now| - 1] == '\0')
    && (forall i | |out| < i < |now| :: now[i] == was[i])
  }

  lemma StoredIs(buf: string, out: string)
    ensures StoredAs(buf, out, Stored(buf, out))
  {
  }

  /** Sends the characters OUT to a buffer of limited size. */
  method Vsnprintf(buf: array<char>, out: string) returns (length: nat)
    modifies buf
    ensures length == |out| && buf[..] == Stored(old(buf[..]), out)
    ensures StoredAs(old(buf[..]), out, buf[..])
  {
    var p := 0;
    length := 0;
    var max := if buf.Length > 0 then buf.Length - 1 else 0;
    while length < |out|
      invariant length <= |out| && p == if length < max then length else max
      invariant buf[..p] == out[..p] && buf[p..] == old(buf[p..])
    {
      if length < max {
        buf[p] := out[length];
        p := p + 1;
      }
      length := length + 1;
    }
    if buf.Length > 0 {
      buf[p] := '\0';
    }
    StoredIs(old(buf[..]), out);
  }

  lemma StoredText(buf: string, out: string)
    requires |out| < |buf|
    ensures var r := Stored(buf, out); |r| == |buf| && r[..|out|] == out && r[|out|] == '\0'
  {
  }

  /** An int formatted into a buffer of at least 12 characters is read back from it. */
  lemma BufferRoundTrip(buf: string, v: int)
    requires InInt(v) && |buf| >= 12
    ensures Atoi(CString(Stored(buf, Rendered(v)), '\0')) == Value(v)
  {
    hide *;
    RoundTrip(v);
    RenderedShort(v);
    StoredText(buf, Rendered(v));
    CStringIs(Stored(buf, Rendered(v)), '\0', |Rendered(v)|);
  }

  lemma {:induction false} FewDigits(v: nat, k: nat, cnt: nat)
    requires v < Power(10, k)
    ensures |Digits(v, BASE_D, false, cnt)| <= k
    decreases k
  {
    if v > 0 {
      FewDigits(v / 10, k - 1, cnt + 1);
    }
  }

  lemma RenderedShort(v: int)
    requires InInt(v)
    ensures |Rendered(v)| <= 11 && forall i | 0 <= i < |Rendered(v)| :: Rendered(v)[i] != '\0'
  {
    hide Digits, Decimal, Output;
    var n := if v < 0 then -v else v;
    assert Power(10, 10) == 10_000_000_000 by {
      assert Power(10, 2) == 100;
      assert Power(10, 4) == 10_000;
      assert Power(10, 6) == 1_000_000;
      assert Power(10, 8) == 100_000_000;
    }
    FewDigits(n, 10, 0);
    RenderedIs(v);
    var body := Body(n, BASE_D, PLAIN);
    ReverseDigits(body);
    assert |body| <= 10;
  }
}
