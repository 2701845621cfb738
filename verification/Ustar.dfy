/** Headers of ustar archives: making and parsing them. */
module Ustar {
  import opened Common
  import opened Sectors
  import Stdio

  const CHKSUM := 148
  const CHKSUM_END := 156
  const MAX_NAME := 99

  datatype Kind = Regular | Directory

  datatype Why = NotUstar | Version | ChecksumField | Mismatch | NameTooLong | FileType | SizeField | TooLarge

  datatype Parsed = End | File(name: seq<Byte>, kind: Kind, size: int) | Error(why: Why)

  // Names.

  const SLASH: Byte := 47
  const DOT: Byte := 46

  predicate Antisocial(s: seq<Byte>) {
    || (|s| >= 1 && s[0] == SLASH)
    || (|s| >= 2 && s[0] == DOT && s[1] == SLASH)
    || (|s| >= 3 && s[0] == DOT && s[1] == DOT && s[2] == SLASH)
  }

  /** What follows the first slash. */
  function AfterSlash(s: seq<Byte>): (r: seq<Byte>)
    requires SLASH in s
    ensures |r| < |s|
  {
    if s[0] == SLASH then s[1..] else AfterSlash(s[1..])
  }

  function Dropped(s: seq<Byte>): seq<Byte>
    decreases |s|
  {
    if Antisocial(s) then
      HasSlash(s);
      Dropped(AfterSlash(s))
    else s
  }

  lemma HasSlash(s: seq<Byte>)
    requires Antisocial(s)
    ensures SLASH in s
  {
  }

  function Strip(s: seq<Byte>): seq<Byte> {
    var t := Dropped(s);
    if t == [] || t == [DOT, DOT] then [DOT] else t
  }

  lemma {:induction false} DroppedClean(s: seq<Byte>)
    ensures !Antisocial(Dropped(s))
    ensures exists k :: 0 <= k <= |s| && Dropped(s) == s[k..]
    decreases |s|
  {
    if Antisocial(s) {
      HasSlash(s);
      var t := AfterSlash(s);
      DroppedClean(t);
      var j := AfterSlashSuffix(s);
      var k :| 0 <= k <= |t| && Dropped(t) == t[k..];
      assert Dropped(s) == s[j + k..];
    } else {
      assert s == s[0..];
    }
  }

  lemma {:induction false} AfterSlashSuffix(s: seq<Byte>) returns (j: nat)
    requires SLASH in s
    ensures 0 < j <= |s| && AfterSlash(s) == s[j..]
  {
    if s[0] == SLASH {
      j := 1;
    } else {
      var i := AfterSlashSuffix(s[1..]);
      j := i + 1;
    }
  }

  /** A stripped name leads nowhere above the current directory at its start, is not empty, and is a suffix of the
      name or ".". */
  lemma StripIs(s: seq<Byte>)
    ensures !Antisocial(Strip(s)) && Strip(s) != [] && Strip(s) != [DOT, DOT]
    ensures Strip(s) == [DOT] || exists k :: 0 <= k <= |s| && Strip(s) == s[k..]
    ensures !Antisocial(s) && s != [] && s != [DOT, DOT] ==> Strip(s) == s
  {
    DroppedClean(s);
  }

  /** Each of the three prefixes is dropped, and nothing after it. */
  lemma StripPrefix(s: seq<Byte>)
    ensures Strip([SLASH] + s) == Strip([DOT, SLASH] + s) == Strip([DOT, DOT, SLASH] + s) == Strip(s)
  {
    var one, two, three := [SLASH] + s, [DOT, SLASH] + s, [DOT, DOT, SLASH] + s;
    assert AfterSlash(one) == s;
    assert two[1..] == one && AfterSlash(two) == s;
    assert three[1..] == two && AfterSlash(three) == s;
  }

  lemma StripTwice(s: seq<Byte>)
    ensures Strip(Strip(s)) == Strip(s)
  {
    StripIs(s);
    StripIs(Strip(s));
  }

  // Octal fields.

  /** V in N octal digits. */
  function Octal(v: nat, n: nat): (s: seq<Byte>)
    ensures |s| == n && forall i | 0 <= i < n :: 48 <= s[i] < 56
  {
    if n == 0 then [] else Octal(v / 8, n - 1) + [48 + v % 8]
  }

  /** The value of a field that ends in a space or a null byte; none if it is too large or malformed. */
  datatype Field = Bad | Good(value: nat)

  function ParseOctal(s: seq<Byte>, ofs: nat, value: nat): Field
    requires ofs <= |s|
    decreases |s| - ofs
  {
    if ofs == |s| then Bad
    else
      var c := s[ofs];
      if 48 <= c <= 55 then
        if value > (TWO32 - 1) / 8 then Bad else ParseOctal(s, ofs + 1, c - 48 + value * 8)
      else if c == 32 || c == 0 then
        if ofs > 0 then Good(value) else Bad
      else Bad
  }

  /** The value of the first N digits. */
  function OctalValue(s: seq<Byte>, n: nat): nat
    requires n <= |s| && forall i | 0 <= i < n :: 48 <= s[i] < 56
  {
    if n == 0 then 0 else OctalValue(s, n - 1) * 8 + (s[n - 1] - 48)
  }

  lemma {:induction false} OctalMeans(v: nat, n: nat)
    requires v < Power(8, n)
    ensures OctalValue(Octal(v, n), n) == v
  {
    if n > 0 {
      OctalMeans(v / 8, n - 1);
      OctalPrefix(Octal(v / 8, n - 1), [48 + v % 8], n - 1);
    }
  }

  lemma {:induction false} OctalPrefix(s: seq<Byte>, t: seq<Byte>, n: nat)
    requires n <= |s| && forall i | 0 <= i < n :: 48 <= s[i] < 56
    ensures OctalValue(s + t, n) == OctalValue(s, n)
  {
    if n > 0 {
      OctalPrefix(s, t, n - 1);
    }
  }

  lemma {:induction false} OctalGrows(s: seq<Byte>, k: nat, n: nat)
    requires k <= n <= |s| && forall i | 0 <= i < n :: 48 <= s[i] < 56
    ensures OctalValue(s, k) <= OctalValue(s, n)
  {
    if k < n {
      OctalGrows(s, k, n - 1);
    }
  }

  lemma {:induction false} ParseDigits(s: seq<Byte>, n: nat, k: nat)
    requires 0 < n < |s| && (forall i | 0 <= i < n :: 48 <= s[i] < 56) && s[n] == 0 && k <= n
    requires OctalValue(s, n) < TWO32
    ensures ParseOctal(s, k, OctalValue(s, k)) == Good(OctalValue(s, n))
    decreases n - k
  {
    if k < n {
      OctalGrows(s, k + 1, n);
      assert OctalValue(s, k + 1) == s[k] - 48 + OctalValue(s, k) * 8;
      ParseDigits(s, n, k + 1);
    }
  }

  /** A number written into a field is read back. */
  lemma FieldRoundTrip(v: nat, n: nat)
    requires n > 0 && v < Power(8, n) && v < TWO32
    ensures ParseOctal(Octal(v, n) + [0], 0, 0) == Good(v)
  {
    var s := Octal(v, n) + [0];
    OctalMeans(v, n);
    OctalPrefix(Octal(v, n), [0], n);
    ParseDigits(s, n, 0);
  }

  /** N octal digits whose value fits 32 bits, and a space or a null byte. */
  ghost predicate Terminated(s: seq<Byte>, n: nat) {
    && 0 < n < |s| && (s[n] == 0 || s[n] == 32) && (forall i | 0 <= i < n :: 48 <= s[i] < 56)
    && OctalValue(s, n) < TWO32
  }

  lemma {:induction false} ParseFrom(s: seq<Byte>, k: nat)
    requires k <= |s| && forall i | 0 <= i < k :: 48 <= s[i] < 56
    requires OctalValue(s, k) < TWO32
    ensures match ParseOctal(s, k, OctalValue(s, k))
            case Bad => forall n | k <= n :: !Terminated(s, n)
            case Good(v) => exists n :: k <= n && Terminated(s, n) && v == OctalValue(s, n)
    decreases |s| - k
  {
    if k < |s| && 48 <= s[k] <= 55 {
      assert OctalValue(s, k + 1) == s[k] - 48 + OctalValue(s, k) * 8;
      if OctalValue(s, k) <= (TWO32 - 1) / 8 {
        ParseFrom(s, k + 1);
        assert !Terminated(s, k);
      } else {
        forall n | k <= n ensures !Terminated(s, n) {
          if Terminated(s, n) && n > k {
            OctalGrows(s, k + 1, n);
          }
        }
      }
    } else if k < |s| && ParseOctal(s, k, OctalValue(s, k)).Good? {
      assert Terminated(s, k);
    }
  }

  /** A field has a value exactly if it starts with octal digits, at least one, for a value that fits 32 bits, and a
      space or a null byte ends them. */
  lemma ParseOctalIs(s: seq<Byte>)
    ensures match ParseOctal(s, 0, 0)
            case Bad => forall n :: !Terminated(s, n)
            case Good(v) => exists n :: Terminated(s, n) && v == OctalValue(s, n)
  {
    assert OctalValue(s, 0) == 0;
    ParseFrom(s, 0);
  }

  // Layout.

  const MTIME := 1136102400

  function Mode(kind: Kind): nat {
    if kind.Regular? then 420 else 493
  }

  function Flag(kind: Kind): Byte {
    if kind.Regular? then 48 else 53
  }

  /** The I-th byte of S, or 0 after its end. */
  function Padded(s: seq<Byte>, i: nat): Byte {
    if i < |s| then s[i] else 0
  }

  const MAGIC: seq<Byte> := [117, 115, 116, 97, 114]
  const ROOT: seq<Byte> := [114, 111, 111, 116]

  /** The size as an unsigned number. */
  function Unsigned(size: int): nat {
    size % TWO32
  }

  function ByteAt(name: seq<Byte>, kind: Kind, size: int, chksum: seq<Byte>, i: nat): Byte
    requires i < SECTOR_SIZE
  {
    if i < 100 then Padded(name, i)
    else if i < 108 then Padded(Octal(Mode(kind), 7), i - 100)
    else if i < 116 then Padded(Octal(0, 7), i - 108)
    else if i < 124 then Padded(Octal(0, 7), i - 116)
    else if i < 136 then Padded(Octal(Unsigned(size), 11), i - 124)
    else if i < CHKSUM then Padded(Octal(MTIME, 11), i - 136)
    else if i < CHKSUM_END then Padded(chksum, i - CHKSUM)
    else if i == 156 then Flag(kind)
    else if i < 257 then 0
    else if i < 263 then Padded(MAGIC, i - 257)
    else if i < 265 then 48
    else if i < 297 then Padded(ROOT, i - 265)
    else if i < 329 then Padded(ROOT, i - 297)
    else 0
  }

  function Laid(name: seq<Byte>, kind: Kind, size: int, chksum: seq<Byte>): (h: Sector) {
    seq(SECTOR_SIZE, i requires 0 <= i < SECTOR_SIZE => ByteAt(name, kind, size, chksum, i))
  }

  /** The sum of the first N bytes, those of the checksum field counting as spaces. */
  function Sum(h: seq<Byte>, n: nat): nat
    requires n <= |h|
  {
    if n == 0 then 0 else Sum(h, n - 1) + if CHKSUM <= n - 1 < CHKSUM_END then 32 else h[n - 1]
  }

  lemma {:induction false} SumBound(h: seq<Byte>, n: nat)
    requires n <= |h|
    ensures Sum(h, n) <= 255 * n
  {
    if n > 0 {
      SumBound(h, n - 1);
    }
  }

  lemma {:induction false} SumSame(h: seq<Byte>, h': seq<Byte>, n: nat)
    requires n <= |h| && n <= |h'| && forall i | 0 <= i < n && !(CHKSUM <= i < CHKSUM_END) :: h'[i] == h[i]
    ensures Sum(h', n) == Sum(h, n)
  {
    if n > 0 {
      SumSame(h, h', n - 1);
    }
  }

  lemma {:induction false} SumChanged(h: seq<Byte>, i: nat, b: Byte, n: nat)
    requires i < n <= |h| && !(CHKSUM <= i < CHKSUM_END)
    ensures Sum(h[i := b], n) == Sum(h, n) - h[i] + b
  {
    if i == n - 1 {
      SumSame(h, h[i := b], n - 1);
    } else {
      SumChanged(h, i, b, n - 1);
    }
  }

  /** The checksum of a block of zeros is that of the eight spaces its checksum field counts as. */
  lemma {:induction false} SumZeros(h: seq<Byte>, n: nat)
    requires n <= |h| && AllZeros(h)
    ensures Sum(h, n) == 32 * Max(0, (if n < CHKSUM_END then n else CHKSUM_END) - CHKSUM)
  {
    if n > 0 {
      SumZeros(h, n - 1);
    }
  }

  function Made(name: seq<Byte>, kind: Kind, size: int): (h: Sector) {
    Laid(name, kind, size, Octal(Sum(Laid(name, kind, size, []), SECTOR_SIZE), 7))
  }

  // Parsing.

  predicate AllZeros(h: seq<Byte>) {
    forall i | 0 <= i < |h| :: h[i] == 0
  }

  predicate IsMagic(h: Sector) {
    && h[257] == 117 && h[258] == 115 && h[259] == 116 && h[260] == 97 && h[261] == 114 && h[262] == 0
  }

  function Parse(h: Sector): Parsed {
    if AllZeros(h) then End
    else if !IsMagic(h) then Error(NotUstar)
    else if h[263] != 48 || h[264] != 48 then Error(Version)
    else
      match ParseOctal(h[CHKSUM..CHKSUM_END], 0, 0)
      case Bad => Error(ChecksumField)
      case Good(chksum) =>
        if chksum != Sum(h, SECTOR_SIZE) then Error(Mismatch)
        else if h[99] != 0 || h[345] != 0 then Error(NameTooLong)
        else if h[156] == Flag(Regular) then
          match ParseOctal(h[124..136], 0, 0)
          case Bad => Error(SizeField)
          case Good(size) =>
            if size > INT_MAX then Error(TooLarge)
            else File(Strip(CString(h[..100], 0)), Regular, size)
        else if h[156] == Flag(Directory) then File(Strip(CString(h[..100], 0)), Directory, 0)
        else Error(FileType)
  }

  /** What each answer of the parser says of the header. */
  lemma ParseDecides(h: Sector)
    ensures Parse(h) == End <==> AllZeros(h)
    ensures Parse(h).File? <==>
              && h[257..263] == MAGIC + [0] && h[263] == h[264] == 48 && h[99] == h[345] == 0
              && ParseOctal(h[148..156], 0, 0) == Good(Sum(h, SECTOR_SIZE))
              && (|| h[156] == 53
                  || (h[156] == 48 && ParseOctal(h[124..136], 0, 0).Good?
                      && ParseOctal(h[124..136], 0, 0).value <= INT_MAX))
    ensures Parse(h).File? ==>
              && Parse(h).name == Strip(CString(h[..100], 0))
              && Parse(h).kind == (if h[156] == 48 then Regular else Directory)
              && (if h[156] == 48 then Good(Parse(h).size) == ParseOctal(h[124..136], 0, 0) else Parse(h).size == 0)
    ensures Parse(h) == Error(NotUstar) <==> !AllZeros(h) && h[257..263] != MAGIC + [0]
    ensures Parse(h) == Error(Version) <==> h[257..263] == MAGIC + [0] && !(h[263] == h[264] == 48)
    ensures Parse(h) == Error(ChecksumField) ==> ParseOctal(h[148..156], 0, 0) == Bad
    ensures Parse(h) == Error(Mismatch) ==> ParseOctal(h[148..156], 0, 0) != Good(Sum(h, SECTOR_SIZE))
    ensures Parse(h) == Error(NameTooLong) ==> h[99] != 0 || h[345] != 0
    ensures Parse(h) == Error(FileType) ==> h[156] != 48 && h[156] != 53
    ensures Parse(h) == Error(SizeField) ==> h[156] == 48 && ParseOctal(h[124..136], 0, 0) == Bad
    ensures Parse(h) == Error(TooLarge) ==>
              h[156] == 48 && ParseOctal(h[124..136], 0, 0).Good? && ParseOctal(h[124..136], 0, 0).value > INT_MAX
  {
    hide ParseOctal, Sum, Strip, CString;
    MagicBytes(h);
    assert h[257] != 0 ==> !AllZeros(h);
  }

  lemma MagicBytes(h: Sector)
    ensures IsMagic(h) <==> h[257..263] == MAGIC + [0]
  {
    var m := h[257..263];
    assert |m| == 6 && forall i | 0 <= i < 6 :: m[i] == h[257 + i];
    assert m[0] == h[257] && m[1] == h[258] && m[2] == h[259] && m[3] == h[260] && m[4] == h[261] && m[5] == h[262];
    if IsMagic(h) {
      assert m == MAGIC + [0];
    }
  }

  /** A header that is accepted is rejected after any one byte outside the checksum field is changed. */
  lemma OneByteDetected(h: Sector, i: nat, b: Byte)
    requires Parse(h).File? && i < SECTOR_SIZE && !(CHKSUM <= i < CHKSUM_END) && b != h[i]
    ensures Parse(h[i := b]).Error?
  {
    hide ParseOctal, Sum, Strip, CString;
    var h' := h[i := b];
    SumChanged(h, i, b, SECTOR_SIZE);
    assert h'[CHKSUM..CHKSUM_END] == h[CHKSUM..CHKSUM_END];
    assert h'[257] != 0 || h'[258] != 0;
  }

  lemma Power8Values()
    ensures Power(8, 7) == 2097152 && Power(8, 11) == 8589934592
  {
    assert Power(8, 2) == 64;
    assert Power(8, 4) == 4096;
    assert Power(8, 6) == 262144;
    assert Power(8, 8) == 16777216;
    assert Power(8, 10) == 1073741824;
  }

  lemma LaidFields(name: seq<Byte>, kind: Kind, size: int, chksum: seq<Byte>)
    requires |name| <= MAX_NAME && (forall i | 0 <= i < |name| :: name[i] != 0) && |chksum| == 7
    ensures var h := Laid(name, kind, size, chksum);
            && !AllZeros(h) && IsMagic(h) && h[263] == 48 && h[264] == 48 && h[99] == 0 && h[345] == 0
            && h[156] == Flag(kind)
            && h[CHKSUM..CHKSUM_END] == chksum + [0]
            && h[124..136] == Octal(Unsigned(size), 11) + [0]
            && CString(h[..100], 0) == name
  {
    hide Octal, CString;
    var h := Laid(name, kind, size, chksum);
    assert h[257] == 117;
    CStringIs(h[..100], 0, |name|);
    assert h[..100][..|name|] == name;
  }

  /** The fields of a header that the parser does not look at: permissions 0644 or 0755, user and group 0 and "root", a
      fixed time, and zeros in the rest. */
  lemma LaidOthers(name: seq<Byte>, kind: Kind, size: int, chksum: seq<Byte>)
    ensures var h := Laid(name, kind, size, chksum);
            && ParseOctal(h[100..108], 0, 0) == Good(if kind.Regular? then 6 * 64 + 4 * 8 + 4 else 7 * 64 + 5 * 8 + 5)
            && ParseOctal(h[108..116], 0, 0) == Good(0) && ParseOctal(h[116..124], 0, 0) == Good(0)
            && ParseOctal(h[136..148], 0, 0) == Good(1136102400)
            && CString(h[265..297], 0) == [114, 111, 111, 116] == CString(h[297..329], 0)
            && (forall i | 157 <= i < 257 || 329 <= i < 512 :: h[i] == 0)
  {
    hide Octal, ParseOctal, CString, Power, Laid;
    Power8Values();
    FieldRoundTrip(Mode(kind), 7);
    FieldRoundTrip(0, 7);
    FieldRoundTrip(MTIME, 11);
    LaidNumbers(name, kind, size, chksum);
    LaidRoots(name, kind, size, chksum);
    LaidZeros(name, kind, size, chksum);
  }

  lemma LaidNumbers(name: seq<Byte>, kind: Kind, size: int, chksum: seq<Byte>)
    ensures var h := Laid(name, kind, size, chksum);
            && h[100..108] == Octal(Mode(kind), 7) + [0]
            && h[108..116] == Octal(0, 7) + [0] && h[116..124] == Octal(0, 7) + [0]
            && h[136..148] == Octal(MTIME, 11) + [0]
  {
    hide Octal;
  }

  lemma LaidRoots(name: seq<Byte>, kind: Kind, size: int, chksum: seq<Byte>)
    ensures var h := Laid(name, kind, size, chksum); CString(h[265..297], 0) == ROOT && CString(h[297..329], 0) == ROOT
  {
    hide Octal, CString;
    var h := Laid(name, kind, size, chksum);
    var u, g := h[265..297], h[297..329];
    assert u == g by {
      assert forall i | 0 <= i < 32 :: u[i] == Padded(ROOT, i) == g[i];
    }
    hide Laid;
    assert u[..4] == ROOT;
    CStringIs(u, 0, 4);
  }

  lemma LaidZeros(name: seq<Byte>, kind: Kind, size: int, chksum: seq<Byte>)
    ensures var h := Laid(name, kind, size, chksum); forall i | 157 <= i < 257 || 329 <= i < 512 :: h[i] == 0
  {
    hide Octal;
  }

  lemma SumLaid(name: seq<Byte>, kind: Kind, size: int, chksum: seq<Byte>)
    ensures Sum(Laid(name, kind, size, chksum), SECTOR_SIZE) == Sum(Laid(name, kind, size, []), SECTOR_SIZE)
  {
    hide Octal;
    SumSame(Laid(name, kind, size, []), Laid(name, kind, size, chksum), SECTOR_SIZE);
  }

  /** A made header is read back as it was made, if and only if the size is not negative or does not matter. */
  lemma RoundTrip(name: Name, kind: Kind, size: int)
    requires -INT_MAX - 1 <= size <= INT_MAX && |Strip(name)| <= MAX_NAME
    ensures var r := Parse(Made(Strip(name), kind, size));
            && (size >= 0 || kind.Directory? ==> r == File(Strip(name), kind, if kind.Regular? then size else 0))
            && (size < 0 && kind.Regular? ==> r == Error(TooLarge))
  {
    hide Octal, Sum, ParseOctal, CString, Strip, Laid, AllZeros, IsMagic;
    var stripped := Strip(name);
    StripNoNull(name);
    var sum := Sum(Laid(stripped, kind, size, []), SECTOR_SIZE);
    SumBound(Laid(stripped, kind, size, []), SECTOR_SIZE);
    Power8Values();
    FieldRoundTrip(sum, 7);
    FieldRoundTrip(Unsigned(size), 11);
    LaidFields(stripped, kind, size, Octal(sum, 7));
    SumLaid(stripped, kind, size, Octal(sum, 7));
    StripTwice(name);
    UnsignedIs(size);
  }

  lemma UnsignedIs(size: int)
    requires -INT_MAX - 1 <= size <= INT_MAX
    ensures Unsigned(size) == if size >= 0 then size else size + TWO32
  {
  }

  lemma StripNoNull(name: Name)
    ensures forall i | 0 <= i < |Strip(name)| :: Strip(name)[i] != 0
  {
    StripIs(name);
  }

  // Octal fields as the printf conversion %0No writes them.

  function CharByte(c: char): Byte {
    if c as int < 256 then c as int else 0
  }

  function ToBytes(s: string): (b: seq<Byte>)
    ensures |b| == |s| && forall i | 0 <= i < |s| :: b[i] == CharByte(s[i])
  {
    seq(|s|, i requires 0 <= i < |s| => CharByte(s[i]))
  }

  function ZeroPadded(width: nat): Stdio.Conv {
    Stdio.Conv(false, false, false, false, true, false, width, -1)
  }

  lemma {:induction false} PaddedDigits(v: nat, n: nat, cnt: nat)
    requires v < Power(8, n)
    ensures var d := Stdio.Digits(v, Stdio.BASE_O, false, cnt);
            |d| <= n && ToBytes(Stdio.Repeat('0', n - |d|) + Stdio.Reverse(d)) == Octal(v, n)
    decreases n
  {
    hide Stdio.Digits, Stdio.Repeat, Stdio.Reverse;
    if v == 0 {
      Stdio.NoDigits(Stdio.BASE_O, false, cnt);
      ZerosOctal(n);
      EmptyReverse();
    } else {
      PaddedDigits(v / 8, n - 1, cnt + 1);
      var e := Stdio.Digits(v / 8, Stdio.BASE_O, false, cnt + 1);
      OneDigit(v, cnt);
      var digit := Stdio.BASE_O.digits[v % 8];
      ReverseCons(digit, e);
      assert digit == Stdio.DigitChar('a', v % 8);
      var left := Stdio.Repeat('0', n - 1 - |e|);
      assert left + (Stdio.Reverse(e) + [digit]) == (left + Stdio.Reverse(e)) + [digit];
    }
  }

  lemma EmptyReverse()
    ensures Stdio.Reverse("") == ""
  {
  }

  lemma ReverseCons(c: char, s: string)
    ensures Stdio.Reverse([c] + s) == Stdio.Reverse(s) + [c]
  {
    assert ([c] + s)[1..] == s;
  }

  lemma OneDigit(v: nat, cnt: nat)
    requires v > 0
    ensures Stdio.Digits(v, Stdio.BASE_O, false, cnt)
            == [Stdio.BASE_O.digits[v % 8]] + Stdio.Digits(v / 8, Stdio.BASE_O, false, cnt + 1)
  {
    var rest := Stdio.Digits(v / 8, Stdio.BASE_O, false, cnt + 1);
    assert "" + [Stdio.BASE_O.digits[v % 8]] + rest == [Stdio.BASE_O.digits[v % 8]] + rest;
  }

  lemma {:induction false} ZerosOctal(n: nat)
    ensures ToBytes(Stdio.Repeat('0', n) + "") == Octal(0, n)
  {
    if n > 0 {
      ZerosOctal(n - 1);
      Stdio.RepeatMore('0', n - 1);
      assert Stdio.Repeat('0', n) + "" == Stdio.Repeat('0', n - 1) + "" + "0";
    }
  }

  lemma OctalOutput(v: nat, n: nat)
    ensures var body := Stdio.Body(v, Stdio.BASE_O, ZeroPadded(n));
            Stdio.Output(v, false, false, Stdio.BASE_O, ZeroPadded(n))
                == Stdio.Repeat('0', n - |body|) + Stdio.Reverse(body)
  {
    hide Stdio.Body, Stdio.Reverse;
    assert Stdio.Repeat(' ', 0) == "";
  }

  lemma OctalBody(v: nat, n: nat)
    requires n > 0
    ensures var body, d := Stdio.Body(v, Stdio.BASE_O, ZeroPadded(n)), Stdio.Digits(v, Stdio.BASE_O, false, 0);
            if v > 0 then body == d else body == "0" && d == ""
  {
    if v == 0 {
      assert Stdio.Repeat('0', 1) == "0";
    } else {
      OneDigit(v, 0);
      assert Stdio.Repeat('0', 1 - |Stdio.Digits(v, Stdio.BASE_O, false, 0)|) == "";
    }
  }

  lemma ZeroBody(n: nat)
    requires n > 0
    ensures Stdio.Repeat('0', n - 1) + Stdio.Reverse("0") == Stdio.Repeat('0', n) + Stdio.Reverse("")
  {
    Stdio.RepeatMore('0', n - 1);
    assert Stdio.Reverse("0") == "0";
  }

  /** A number of at most N octal digits is written in just N. */
  lemma OctalFormat(v: nat, n: nat)
    requires v < Power(8, n) && n > 0
    ensures ToBytes(Stdio.Output(v, false, false, Stdio.BASE_O, ZeroPadded(n))) == Octal(v, n)
  {
    hide Stdio.Body, Stdio.Reverse, Stdio.Output, Stdio.Digits, Stdio.Repeat, Octal;
    PaddedDigits(v, n, 0);
    OctalOutput(v, n);
    OctalBody(v, n);
    ZeroBody(n);
  }

  // The code.

  method CalculateChksum(h: array<Byte>) returns (chksum: nat)
    requires h.Length == SECTOR_SIZE
    ensures chksum == Sum(h[..], SECTOR_SIZE)
  {
    chksum := 0;
    for i := 0 to SECTOR_SIZE
      invariant chksum == Sum(h[..], i)
    {
      chksum := chksum + if CHKSUM <= i < CHKSUM_END then 32 else h[i];
    }
  }

  method StripAntisocialPrefixes(name: seq<Byte>) returns (r: seq<Byte>)
    ensures r == Strip(name)
  {
    r := name;
    while Antisocial(r)
      invariant Dropped(r) == Dropped(name)
      decreases |r|
    {
      HasSlash(r);
      var i := 0;
      assert r[0..] == r;
      while r[i] != SLASH
        invariant 0 <= i < |r| && SLASH in r[i..] && AfterSlash(r[i..]) == AfterSlash(r)
        decreases |r| - i
      {
        assert r[i..][1..] == r[i + 1..];
        i := i + 1;
      }
      r := r[i + 1..];
    }
    if r == [] || r == [DOT, DOT] {
      r := [DOT];
    }
  }

  method ParseOctalField(s: seq<Byte>) returns (r: Field)
    ensures r == ParseOctal(s, 0, 0)
  {
    var value: nat := 0;
    for ofs := 0 to |s|
      invariant ParseOctal(s, ofs, value) == ParseOctal(s, 0, 0)
    {
      var c := s[ofs];
      if 48 <= c <= 55 {
        if value > (TWO32 - 1) / 8 {
          return Bad;
        }
        value := c - 48 + value * 8;
      } else if c == 32 || c == 0 {
        return if ofs > 0 then Good(value) else Bad;
      } else {
        return Bad;
      }
    }
    return Bad;
  }

  /** Copies BYTES into H. */
  method Put(h: array<Byte>, ofs: nat, bytes: seq<Byte>)
    requires h.Length == SECTOR_SIZE && ofs + |bytes| <= SECTOR_SIZE
    modifies h
    ensures h[..] == Overlay(old(h[..]), ofs, bytes)
  {
    for i := 0 to |bytes|
      invariant forall k | 0 <= k < SECTOR_SIZE :: h[k] == if ofs <= k < ofs + i then bytes[k - ofs] else old(h[k])
    {
      h[ofs + i] := bytes[i];
    }
  }

  method PutOctal(h: array<Byte>, ofs: nat, v: nat, n: nat)
    requires h.Length == SECTOR_SIZE && ofs + n <= SECTOR_SIZE && n > 0 && v < Power(8, n) && v < TWO64
    modifies h
    ensures h[..] == Overlay(old(h[..]), ofs, Octal(v, n))
  {
    Stdio.BasesOk();
    var out := Stdio.FormatInteger(v, false, false, Stdio.BASE_O, ZeroPadded(n));
    OctalFormat(v, n);
    Put(h, ofs, ToBytes(out));
  }

  /** The fields one after the other, over zeros. */
  ghost function Fields(name: seq<Byte>, kind: Kind, size: int): (h: seq<Byte>)
    requires |name| <= MAX_NAME
    ensures |h| == SECTOR_SIZE
  {
    var h1 := Overlay(Overlay(ZERO_SECTOR, 0, name), 100, Octal(Mode(kind), 7));
    var h2 := Overlay(Overlay(h1, 108, Octal(0, 7)), 116, Octal(0, 7));
    var h3 := Overlay(Overlay(h2, 124, Octal(Unsigned(size), 11)), 136, Octal(MTIME, 11));
    var h4 := Overlay(Overlay(h3, 156, [Flag(kind)]), 257, MAGIC);
    Overlay(Overlay(Overlay(h4, 263, [48, 48]), 297, ROOT), 265, ROOT)
  }

  lemma FieldsLaid(name: seq<Byte>, kind: Kind, size: int)
    requires |name| <= MAX_NAME
    ensures Fields(name, kind, size) == Laid(name, kind, size, [])
  {
    hide Octal, Overlay;
    var f, l := Fields(name, kind, size), Laid(name, kind, size, []);
    forall i | 0 <= i < SECTOR_SIZE
      ensures f[i] == l[i]
    {
    }
  }

  lemma SumFits(h: seq<Byte>)
    requires |h| == SECTOR_SIZE
    ensures Sum(h, SECTOR_SIZE) < Power(8, 7) && Sum(h, SECTOR_SIZE) < TWO64
  {
    SumBound(h, SECTOR_SIZE);
    Power8Values();
  }

  lemma ChecksumLaid(name: seq<Byte>, kind: Kind, size: int, chksum: seq<Byte>)
    requires |chksum| == 7
    ensures Overlay(Laid(name, kind, size, []), CHKSUM, chksum) == Laid(name, kind, size, chksum)
  {
    hide Octal;
  }

  method MakeHeader(name: Name, kind: Kind, size: int, h: array<Byte>) returns (ok: bool)
    requires h.Length == SECTOR_SIZE && -INT_MAX - 1 <= size <= INT_MAX
    modifies h
    ensures ok <==> |Strip(name)| <= MAX_NAME
    ensures h[..] == if ok then Made(Strip(name), kind, size) else old(h[..])
  {
    hide Octal, Overlay, Sum, Laid, Power;
    var stripped := StripAntisocialPrefixes(name);
    if |stripped| > MAX_NAME {
      return false;
    }
    for i := 0 to SECTOR_SIZE
      invariant forall k | 0 <= k < i :: h[k] == 0
    {
      h[i] := 0;
    }
    assert h[..] == ZERO_SECTOR;
    PutFields(stripped, kind, size, h);
    FieldsLaid(stripped, kind, size);
    var chksum := CalculateChksum(h);
    SumFits(h[..]);
    PutOctal(h, CHKSUM, chksum, 7);
    ChecksumLaid(stripped, kind, size, Octal(chksum, 7));
    return true;
  }

  method PutFields(name: seq<Byte>, kind: Kind, size: int, h: array<Byte>)
    requires h.Length == SECTOR_SIZE && |name| <= MAX_NAME && h[..] == ZERO_SECTOR && -INT_MAX - 1 <= size <= INT_MAX
    modifies h
    ensures h[..] == Fields(name, kind, size)
  {
    hide Octal, Overlay;
    Power8Values();
    hide Power;
    Put(h, 0, name);
    PutOctal(h, 100, Mode(kind), 7);
    PutOctal(h, 108, 0, 7);
    PutOctal(h, 116, 0, 7);
    PutOctal(h, 124, Unsigned(size), 11);
    PutOctal(h, 136, MTIME, 11);
    Put(h, 156, [Flag(kind)]);
    Put(h, 257, MAGIC);
    Put(h, 263, [48, 48]);
    Put(h, 297, ROOT);
    Put(h, 265, ROOT);
  }

  method IsAllZeros(h: array<Byte>) returns (r: bool)
    ensures r == AllZeros(h[..])
  {
    for i := 0 to h.Length
      invariant forall k | 0 <= k < i :: h[k] == 0
    {
      if h[i] != 0 {
        assert h[..][i] != 0;
        return false;
      }
    }
    return true;
  }

  method ParseHeader(h: array<Byte>) returns (r: Parsed)
    requires h.Length == SECTOR_SIZE
    ensures r == Parse(h[..])
  {
    hide ParseOctal, Sum, Strip, CString, AllZeros;
    var end := IsAllZeros(h);
    if end {
      return End;
    }
    if !IsMagic(h[..]) {
      return Error(NotUstar);
    } else if h[263] != 48 || h[264] != 48 {
      return Error(Version);
    }
    var chksum := ParseOctalField(h[CHKSUM..CHKSUM_END]);
    if chksum.Bad? {
      return Error(ChecksumField);
    }
    assert h[..][CHKSUM..CHKSUM_END] == h[CHKSUM..CHKSUM_END] && h[..][124..136] == h[124..136]
           && h[..][..100] == h[..100];
    var sum := CalculateChksum(h);
    if chksum.value != sum {
      return Error(Mismatch);
    } else if h[99] != 0 || h[345] != 0 {
      return Error(NameTooLong);
    } else if h[156] != Flag(Regular) && h[156] != Flag(Directory) {
      return Error(FileType);
    }
    var size := 0;
    if h[156] == Flag(Regular) {
      var field := ParseOctalField(h[124..136]);
      if field.Bad? {
        return Error(SizeField);
      } else if field.value > INT_MAX {
        return Error(TooLarge);
      }
      size := field.value;
    }
    var name := StripAntisocialPrefixes(CString(h[..100], 0));
    return File(name, if h[156] == Flag(Regular) then Regular else Directory, size);
  }
}
