/** Conversion specifications of printf: what stands between the percent sign and the letter. */
module Format {
  import opened Common
  import opened Stdio

  datatype Size = CharSize | ShortSize | IntSize | IntMaxSize | LongSize | LongLongSize | PtrDiffSize | SizeSize

  /** What a specification says, the format that follows it, and the arguments left.  A number that does not fit an int,
      and an argument that is not there, have no defined meaning. */
  datatype Parsing = Undefined | Parsed(conv: Conv, size: Size, rest: string, args: seq<int>)

  datatype Scanned = Overrun | Scanned(value: int, rest: string, args: seq<int>)

  // Flags.

  predicate IsFlag(ch: char) {
    ch == '-' || ch == '+' || ch == ' ' || ch == '#' || ch == '0' || ch == '\''
  }

  function SetFlag(c: Conv, ch: char): Conv
    requires IsFlag(ch)
  {
    match ch
    case '-' => c.(minus := true)
    case '+' => c.(plus := true)
    case ' ' => c.(space := true)
    case '#' => c.(pound := true)
    case '0' => c.(zero := true)
    case _ => c.(group := true)
  }

  function Flags(s: string, c: Conv): (Conv, string) {
    if s != "" && IsFlag(s[0]) then Flags(s[1..], SetFlag(c, s[0])) else (c, s)
  }

  /** Left adjustment cancels zeros, and a plus sign a space. */
  function Settled(c: Conv): Conv {
    c.(zero := c.zero && !c.minus, space := c.space && !c.plus)
  }

  // Numbers.

  function Scan(s: string, acc: int, args: seq<int>): Scanned {
    if s == "" || !IsDigit(s[0]) then Scanned(acc, s, args)
    else if InInt(acc * 10) && InInt(acc * 10 + s[0] as int) then Scan(s[1..], acc * 10 + DigitValue(s[0]), args)
    else Overrun
  }

  /** A number, or a star for the next argument. */
  function NumberOrStar(s: string, args: seq<int>): Scanned {
    if s != "" && s[0] == '*' then
      if args == [] then Overrun else Scanned(args[0], s[1..], args[1..])
    else Scan(s, 0, args)
  }

  /** The width is the number's magnitude; a negative one also means left adjustment. */
  function WithWidth(c: Conv, w: int): Conv {
    if w < 0 then c.(width := -w, minus := true) else c.(width := w)
  }

  function ScanPrecision(s: string, args: seq<int>): Scanned {
    if s == "" || s[0] != '.' then Scanned(-1, s, args)
    else
      match NumberOrStar(s[1..], args)
      case Overrun => Overrun
      case Scanned(p, rest, args') => Scanned(if p < 0 then -1 else p, rest, args')
  }

  function WithPrecision(c: Conv, p: int): Conv {
    c.(precision := p, zero := c.zero && p < 0)
  }

  function ScanSize(s: string): (Size, string) {
    if s == "" then (IntSize, s)
    else
      match s[0]
      case 'h' => if |s| > 1 && s[1] == 'h' then (CharSize, s[2..]) else (ShortSize, s[1..])
      case 'j' => (IntMaxSize, s[1..])
      case 'l' => if |s| > 1 && s[1] == 'l' then (LongLongSize, s[2..]) else (LongSize, s[1..])
      case 't' => (PtrDiffSize, s[1..])
      case 'z' => (SizeSize, s[1..])
      case _ => (IntSize, s)
  }

  function ParseConversion(s: string, args: seq<int>): Parsing {
    var (flags, s1) := Flags(s, PLAIN);
    match NumberOrStar(s1, args)
    case Overrun => Undefined
    case Scanned(w, s2, args2) =>
      if w <= INT_MIN then Undefined
      else
        match ScanPrecision(s2, args2)
        case Overrun => Undefined
        case Scanned(p, s3, args3) =>
          var (size, rest) := ScanSize(s3);
          Parsed(WithPrecision(WithWidth(Settled(flags), w), p), size, rest, args3)
  }

  // What a specification can ask for.

  lemma {:induction false} FlagsOnly(s: string, c: Conv)
    ensures Flags(s, c).0.width == c.width && Flags(s, c).0.precision == c.precision
  {
    if s != "" && IsFlag(s[0]) {
      FlagsOnly(s[1..], SetFlag(c, s[0]));
    }
  }

  lemma {:induction false} ScanSign(s: string, acc: int, args: seq<int>)
    requires acc >= 0
    ensures Scan(s, acc, args).Scanned? ==> Scan(s, acc, args).value >= 0
  {
    if s != "" && IsDigit(s[0]) {
      ScanSign(s[1..], acc * 10 + DigitValue(s[0]), args);
    }
  }

  /** The flags say to fill with zeros, not to adjust to the left, and a star gets a negative width. */
  predicate NegativeStar(s: string, args: seq<int>) {
    var (c, t) := Flags(s, PLAIN);
    c.zero && !c.minus && t != "" && t[0] == '*' && args != [] && args[0] < 0
  }

  /** A parsed specification has a width and a precision in range, no sign flags that exclude each other, and no zeros
      along with a precision.  It has both left adjustment and zeros only by a negative width given with a star. */
  lemma ParsedShape(s: string, args: seq<int>)
    ensures ParseConversion(s, args).Parsed? ==>
              var c := ParseConversion(s, args).conv;
              && c.width >= 0 && c.precision >= -1
              && !(c.plus && c.space) && (c.precision >= 0 ==> !c.zero)
              && (c.minus && c.zero <==> NegativeStar(s, args) && c.precision < 0)
  {
    hide Flags, Scan;
    var (flags, t) := Flags(s, PLAIN);
    ScanSign(t, 0, args);
  }

  /** A number in a parsed field is as wide as it should be, unless that happens and there is something to fill. */
  lemma FieldWidth(s: string, args: seq<int>, v: nat, isSigned: bool, negative: bool, b: Base)
    requires BaseOk(b) && ParseConversion(s, args).Parsed?
    ensures var c := ParseConversion(s, args).conv;
            var need := Need(v, isSigned, negative, b, c);
            |Output(v, isSigned, negative, b, c)| == Max(c.width, need) <==>
              !(NegativeStar(s, args) && c.precision < 0) || c.width <= need
  {
    hide ParseConversion, Need, Output, NegativeStar;
    ParsedShape(s, args);
    OutputWidth(v, isSigned, negative, b, ParseConversion(s, args).conv);
  }

  /** Zeros and a width of -5 from an argument give both flags. */
  lemma NegativeStarParsed()
    ensures ParseConversion("0*d", [-5]) == Parsed(PLAIN.(minus := true, zero := true, width := 5), IntSize, "d", [])
  {
    assert "0*d"[1..] == "*d" && "*d"[1..] == "d";
    assert Flags("0*d", PLAIN) == (PLAIN.(zero := true), "*d");
    assert [-5][1..] == [];
  }

  /** Width and precision may both be stars, for the next two arguments: a negative width means left adjustment, and a
      negative precision none at all. */
  lemma StarArguments(w: int, p: int, rest: seq<int>)
    requires w > INT_MIN
    ensures ParseConversion("*.*d", [w, p] + rest)
         == Parsed(PLAIN.(minus := w < 0, width := if w < 0 then -w else w, precision := if p < 0 then -1 else p),
                   IntSize, "d", rest)
  {
    assert "*.*d"[1..] == ".*d" && ".*d"[1..] == "*d" && "*d"[1..] == "d";
    assert ([w, p] + rest)[1..] == [p] + rest && ([p] + rest)[1..] == rest;
    assert Flags("*.*d", PLAIN) == (PLAIN, "*.*d");
  }

  // Reading back what is written.

  function Flag(on: bool, ch: char): string {
    if on then [ch] else ""
  }

  function WriteFlags(c: Conv): string {
    Flag(c.minus, '-') + (Flag(c.plus, '+')
        + (Flag(c.space, ' ') + (Flag(c.pound, '#') + (Flag(c.zero, '0') + Flag(c.group, '\'')))))
  }

  function WriteNumber(n: int): string {
    if n > 0 then Rendered(n) else ""
  }

  function WriteSize(size: Size): string {
    match size
    case CharSize => "hh"
    case ShortSize => "h"
    case IntSize => ""
    case IntMaxSize => "j"
    case LongSize => "l"
    case LongLongSize => "ll"
    case PtrDiffSize => "t"
    case SizeSize => "z"
  }

  /** The specification in full. */
  function Write(c: Conv, size: Size): string {
    WriteFlags(c) + (WriteNumber(c.width)
        + ((if c.precision >= 0 then "." + WriteNumber(c.precision) else "") + WriteSize(size)))
  }

  /** Numbers this close to the largest int pass through one that is larger. */
  const NUMBER_MAX := INT_MAX - 48

  ghost predicate Writable(c: Conv) {
    && 0 <= c.width <= NUMBER_MAX && -1 <= c.precision <= NUMBER_MAX
    && !(c.plus && c.space) && !(c.minus && c.zero) && (c.precision >= 0 ==> !c.zero)
  }

  /** A conversion letter: none of the characters that may stand before it. */
  predicate IsLetter(ch: char) {
    !IsFlag(ch) && !IsDigit(ch) && ch != '*' && ch != '.' && ch != 'h' && ch != 'j' && ch != 'l' && ch != 't'
        && ch != 'z'
  }

  ghost predicate NoDigitFirst(s: string) {
    s == "" || !IsDigit(s[0])
  }

  lemma {:induction false} ScanDigits(r: string, rest: string, acc: int, args: seq<int>)
    requires AllDigits(r) && NoDigitFirst(rest) && acc >= 0 && Decimal(r, acc) <= NUMBER_MAX
    ensures Scan(r + rest, acc, args) == Scanned(Decimal(r, acc), rest, args)
  {
    if r == "" {
      assert r + rest == rest;
    } else {
      var next := acc * 10 + DigitValue(r[0]);
      DecimalGrows(r[1..], next);
      ScanDigits(r[1..], rest, next, args);
      assert (r + rest)[0] == r[0] && (r + rest)[1..] == r[1..] + rest;
    }
  }

  lemma RenderedDigits(n: int)
    requires n > 0
    ensures var r := Rendered(n);
            AllDigits(r) && r != "" && r[0] != '0' && Decimal(r, 0) == n
  {
    hide Rendered, Body, Reverse, Decimal, Number, Digits, Zeros;
    RenderedIs(n);
    BasesOk();
    BodyMeans(n, BASE_D, PLAIN);
    var body := Body(n, BASE_D, PLAIN);
    ReverseDigits(body);
    assert "" + Reverse(body) == Reverse(body);
    BodyTop(n);
    ReverseAt(body, 0);
  }

  lemma BodyTop(n: nat)
    requires n > 0
    ensures var body := Body(n, BASE_D, PLAIN); body != "" && body[|body| - 1] != '0'
  {
    hide Digits;
    BasesOk();
    DigitsTop(n, BASE_D, false, 0);
    var s := Digits(n, BASE_D, false, 0);
    assert Repeat('0', 1 - |s|) == "";
    assert Zeros(s, 1) == s;
  }

  /** A written number is scanned, whatever follows it but a digit. */
  lemma ScanWritten(n: int, rest: string, args: seq<int>)
    requires 0 <= n <= NUMBER_MAX && NoDigitFirst(rest) && (rest == "" || rest[0] != '*')
    ensures NumberOrStar(WriteNumber(n) + rest, args) == Scanned(n, rest, args)
    ensures var s := WriteNumber(n) + rest; s != "" && (n > 0 || (rest != "" && !IsFlag(rest[0]))) ==> !IsFlag(s[0])
  {
    hide Rendered, Decimal, Scan;
    if n > 0 {
      RenderedDigits(n);
      ScanDigits(Rendered(n), rest, 0, args);
    } else {
      assert "" + rest == rest;
      ScanNothing(rest, args);
    }
  }

  lemma ScanNothing(rest: string, args: seq<int>)
    requires NoDigitFirst(rest)
    ensures Scan(rest, 0, args) == Scanned(0, rest, args)
  {
  }

  lemma SizeWritten(size: Size, rest: string)
    requires rest != "" && IsLetter(rest[0])
    ensures var s := WriteSize(size) + rest;
            && ScanSize(s) == (size, rest)
            && s != "" && !IsFlag(s[0]) && !IsDigit(s[0]) && s[0] != '*' && s[0] != '.'
  {
    var w := WriteSize(size);
    assert (w + rest)[|w|..] == rest;
    assert (w + rest)[|w|] == rest[0];
  }

  function PrecisionPart(p: int): string {
    if p >= 0 then "." + WriteNumber(p) else ""
  }

  lemma DotFirst(w: string, rest: string)
    ensures var s := ("." + w) + rest; s != "" && s[0] == '.' && s[1..] == w + rest
  {
  }

  lemma PrecisionWritten(p: int, rest: string, args: seq<int>)
    requires -1 <= p <= NUMBER_MAX && rest != "" && !IsFlag(rest[0]) && !IsDigit(rest[0]) && rest[0] != '*'
             && rest[0] != '.'
    ensures var s := PrecisionPart(p) + rest;
            && ScanPrecision(s, args) == Scanned(p, rest, args)
            && s != "" && !IsFlag(s[0]) && !IsDigit(s[0]) && s[0] != '*'
  {
    hide WriteNumber, NumberOrStar;
    if p >= 0 {
      ScanWritten(p, rest, args);
      DotFirst(WriteNumber(p), rest);
    } else {
      assert "" + rest == rest;
    }
  }

  lemma FlagsStop(s: string, c: Conv)
    requires s == "" || !IsFlag(s[0])
    ensures Flags(s, c) == (c, s)
  {
  }

  lemma FlagsNext(ch: char, s: string, c: Conv)
    requires IsFlag(ch)
    ensures Flags([ch] + s, c) == Flags(s, SetFlag(c, ch))
  {
    assert ([ch] + s)[1..] == s;
  }

  function SetIf(c: Conv, on: bool, ch: char): Conv
    requires IsFlag(ch)
  {
    if on then SetFlag(c, ch) else c
  }

  /** One flag, written or not. */
  lemma FlagWritten(on: bool, ch: char, t: string, rest: string, c: Conv)
    requires IsFlag(ch)
    ensures Flags((Flag(on, ch) + t) + rest, c) == Flags(t + rest, SetIf(c, on, ch))
  {
    FlagsNext(ch, t + rest, c);
    assert ([ch] + t) + rest == [ch] + (t + rest);
    assert ("" + t) + rest == t + rest;
  }

  lemma AllSet(c: Conv)
    ensures var c3 := SetIf(SetIf(SetIf(PLAIN, c.minus, '-'), c.plus, '+'), c.space, ' ');
            SetIf(SetIf(SetIf(c3, c.pound, '#'), c.zero, '0'), c.group, '\'') == c.(width := 0, precision := -1)
  {
  }

  lemma FlagsWritten(c: Conv, rest: string)
    requires rest != "" && !IsFlag(rest[0])
    ensures Flags(WriteFlags(c) + rest, PLAIN) == (c.(width := 0, precision := -1), rest)
  {
    hide Flags, Flag, SetIf;
    var t6 := Flag(c.group, '\'');
    var t5 := Flag(c.zero, '0') + t6;
    var t4 := Flag(c.pound, '#') + t5;
    var t3 := Flag(c.space, ' ') + t4;
    var t2 := Flag(c.plus, '+') + t3;
    var c1 := SetIf(PLAIN, c.minus, '-');
    var c2 := SetIf(c1, c.plus, '+');
    var c3 := SetIf(c2, c.space, ' ');
    var c4 := SetIf(c3, c.pound, '#');
    var c5 := SetIf(c4, c.zero, '0');
    FlagWritten(c.minus, '-', t2, rest, PLAIN);
    FlagWritten(c.plus, '+', t3, rest, c1);
    FlagWritten(c.space, ' ', t4, rest, c2);
    FlagWritten(c.pound, '#', t5, rest, c3);
    FlagWritten(c.zero, '0', t6, rest, c4);
    FlagWritten(c.group, '\'', "", rest, c5);
    assert t6 + "" == t6 && "" + rest == rest;
    FlagsStop(rest, SetIf(c5, c.group, '\''));
    AllSet(c);
  }

  /** A specification written out is read back, up to its letter. */
  lemma ConversionRoundTrip(c: Conv, size: Size, rest: string, args: seq<int>)
    requires Writable(c) && rest != "" && IsLetter(rest[0])
    ensures ParseConversion(Write(c, size) + rest, args) == Parsed(c, size, rest, args)
  {
    hide WriteFlags, WriteNumber, WriteSize, Flags, NumberOrStar, ScanPrecision, ScanSize, PrecisionPart;
    var s3 := WriteSize(size) + rest;
    SizeWritten(size, rest);
    var s2 := PrecisionPart(c.precision) + s3;
    PrecisionWritten(c.precision, s3, args);
    var s1 := WriteNumber(c.width) + s2;
    ScanWritten(c.width, s2, args);
    assert s1 != "" && !IsFlag(s1[0]) by {
      NumberFirst(c.width, s2);
    }
    FlagsWritten(c, s1);
    Assembled(c, size, rest);
  }

  lemma NumberFirst(n: int, rest: string)
    requires 0 <= n && rest != "" && !IsFlag(rest[0])
    ensures var s := WriteNumber(n) + rest; s != "" && !IsFlag(s[0])
  {
    hide Rendered;
    if n > 0 {
      RenderedDigits(n);
    } else {
      assert "" + rest == rest;
    }
  }

  lemma Assembled(c: Conv, size: Size, rest: string)
    ensures Write(c, size) + rest
         == WriteFlags(c) + (WriteNumber(c.width) + (PrecisionPart(c.precision) + (WriteSize(size) + rest)))
  {
    hide WriteFlags, WriteNumber, WriteSize;
  }

  // The code.

  method ReadFlags(s: string) returns (c: Conv, rest: string)
    ensures (c, rest) == Flags(s, PLAIN)
  {
    c, rest := PLAIN, s;
    while rest != "" && IsFlag(rest[0])
      invariant Flags(rest, c) == Flags(s, PLAIN)
      decreases |rest|
    {
      c, rest := SetFlag(c, rest[0]), rest[1..];
    }
  }

  method ReadNumber(s: string, args: seq<int>) returns (r: Scanned)
    ensures r == NumberOrStar(s, args)
  {
    if s != "" && s[0] == '*' {
      return if args == [] then Overrun else Scanned(args[0], s[1..], args[1..]);
    }
    var value, rest := 0, s;
    while rest != "" && IsDigit(rest[0])
      invariant Scan(rest, value, args) == Scan(s, 0, args)
      decreases |rest|
    {
      if !(InInt(value * 10) && InInt(value * 10 + rest[0] as int)) {
        return Overrun;
      }
      value, rest := value * 10 + DigitValue(rest[0]), rest[1..];
    }
    return Scanned(value, rest, args);
  }

  method ReadPrecision(s: string, args: seq<int>) returns (r: Scanned)
    ensures r == ScanPrecision(s, args)
  {
    hide NumberOrStar;
    if s == "" || s[0] != '.' {
      return Scanned(-1, s, args);
    }
    r := ReadNumber(s[1..], args);
    if r.Scanned? && r.value < 0 {
      r := r.(value := -1);
    }
  }

  /** The flags and the width, as they act on each other. */
  method Adjusted(flags: Conv, width: int) returns (c: Conv)
    requires width > INT_MIN
    ensures c == WithWidth(Settled(flags), width)
  {
    c := flags;
    if c.minus {
      c := c.(zero := false);
    }
    if c.plus {
      c := c.(space := false);
    }
    c := c.(width := width);
    if c.width < 0 {
      c := c.(width := -c.width, minus := true);
    }
  }

  /** Reads the options of a conversion. */
  method ReadConversion(s: string, args: seq<int>) returns (r: Parsing)
    ensures r == ParseConversion(s, args)
  {
    hide Flags, NumberOrStar, ScanSize, ScanPrecision, WithWidth, Settled;
    var flags, s1 := ReadFlags(s);
    var w := ReadNumber(s1, args);
    if w.Overrun? {
      return Undefined;
    }
    if w.value <= INT_MIN {
      return Undefined;
    }
    var c := Adjusted(flags, w.value);
    var p := ReadPrecision(w.rest, w.args);
    if p.Overrun? {
      return Undefined;
    }
    c := c.(precision := p.value);
    if c.precision >= 0 {
      c := c.(zero := false);
    }
    var (size, rest) := ScanSize(p.rest);
    return Parsed(c, size, rest, p.args);
  }
}
