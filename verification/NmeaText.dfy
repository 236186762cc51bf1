/** Characters, checksums and number texts: the primitives of nmea/src/tok.c. */
module NmeaText {
  import opened Decimals
  import opened Machine

  const CONVSTR_BUF := 256
  const NUL: char := 0 as char

  // ---------------------------------------------------------------- checksum

  function Abs(a: int): nat {
    if a < 0 then -a else a
  }

  /** C's `^` on ints, on two's complement numbers of any width. */
  function Xor(a: int, b: int): int
    decreases Abs(a) + Abs(b)
  {
    if -1 <= a <= 0 && -1 <= b <= 0 then
      if a == b then 0 else -1
    else
      2 * Xor(a / 2, b / 2) + if a % 2 == b % 2 then 0 else 1
  }

  /** `(int)c` for a C `char`, which is signed on the platforms of this library. */
  function Signed(c: char): int {
    if c as int < 128 then c as int else c as int - 256
  }

  /** The running checksum after the characters of `s`, started from `crc`. */
  function Crc(crc: int, s: string): int
    decreases s
  {
    if s == [] then crc else Crc(Xor(crc, Signed(s[0])), s[1..])
  }

  method CalcCrc(s: string) returns (chsum: int)
    ensures chsum == Crc(0, s)
  {
    chsum := 0;
    for it := 0 to |s|
      invariant Crc(chsum, s[it..]) == Crc(0, s)
    {
      chsum := Xor(chsum, Signed(s[it]));
      assert s[it..][0] == s[it] && s[it..][1..] == s[it + 1..];
    }
  }

  lemma XorUnfold(a: int, b: int)
    ensures Xor(a, b) == 2 * Xor(a / 2, b / 2) + if a % 2 == b % 2 then 0 else 1
  {}

  lemma {:induction false} XorCommutes(a: int, b: int)
    ensures Xor(a, b) == Xor(b, a)
    decreases Abs(a) + Abs(b)
  {
    if !(-1 <= a <= 0 && -1 <= b <= 0) {
      XorCommutes(a / 2, b / 2);
    }
  }

  /** Equal results come from equal halves and equal last bits. */
  lemma XorHalves(a: int, x: int, y: int)
    requires Xor(a, x) == Xor(a, y)
    ensures x % 2 == y % 2 && Xor(a / 2, x / 2) == Xor(a / 2, y / 2)
  {
    XorUnfold(a, x);
    XorUnfold(a, y);
  }

  lemma Halve(a: int)
    ensures Abs(a / 2) <= Abs(a) && (-1 <= a <= 0 || Abs(a / 2) < Abs(a))
  {}

  /** Two different operands never give the same result. */
  lemma {:induction false} XorInjective(a: int, x: int, y: int)
    requires Xor(a, x) == Xor(a, y)
    ensures x == y
    decreases Abs(a) + Abs(x) + Abs(y)
  {
    XorHalves(a, x, y);
    if !(-1 <= a <= 0 && -1 <= x <= 0 && -1 <= y <= 0) {
      Halve(a);
      Halve(x);
      Halve(y);
      XorInjective(a / 2, x / 2, y / 2);
      assert x == 2 * (x / 2) + x % 2 && y == 2 * (y / 2) + y % 2;
    }
  }

  function Pow2(k: nat): nat {
    if k == 0 then 1 else 2 * Pow2(k - 1)
  }

  lemma {:induction false} XorBound(a: int, b: int, k: nat)
    requires 0 <= a < Pow2(k) && 0 <= b < Pow2(k)
    ensures 0 <= Xor(a, b) < Pow2(k)
  {
    if k > 0 {
      XorUnfold(a, b);
      XorBound(a / 2, b / 2, k - 1);
    }
  }

  predicate Ascii(s: string) {
    forall i | 0 <= i < |s| :: s[i] as int < 128
  }

  lemma {:induction false} CrcBound(crc: int, s: string)
    requires 0 <= crc < 128 && Ascii(s)
    ensures 0 <= Crc(crc, s) < 128
    decreases s
  {
    if s != [] {
      assert Pow2(7) == 128;
      XorBound(crc, Signed(s[0]), 7);
      CrcBound(Xor(crc, Signed(s[0])), s[1..]);
    }
  }

  lemma {:induction false} CrcConcat(crc: int, s: string, t: string)
    ensures Crc(crc, s + t) == Crc(Crc(crc, s), t)
    decreases s
  {
    if s == [] {
      assert s + t == t;
    } else {
      assert (s + t)[1..] == s[1..] + t;
      CrcConcat(Xor(crc, Signed(s[0])), s[1..], t);
    }
  }

  lemma {:induction false} CrcInjective(c: int, d: int, s: string)
    requires Crc(c, s) == Crc(d, s)
    ensures c == d
    decreases s
  {
    if s != [] {
      var x := Signed(s[0]);
      CrcInjective(Xor(c, x), Xor(d, x), s[1..]);
      XorCommutes(c, x);
      XorCommutes(d, x);
      XorInjective(x, c, d);
    }
  }

  /** A checksum detects the change of any single byte. */
  lemma CrcDetectsChange(s: string, i: nat, c: char)
    requires i < |s| && c != s[i] && s[i] as int < 256 && c as int < 256
    ensures Crc(0, s[i := c]) != Crc(0, s)
  {
    var p, t := s[..i], s[i + 1..];
    var q := Crc(0, p);
    CrcConcat(0, p, [s[i]] + t);
    CrcConcat(0, p, [c] + t);
    assert s == p + ([s[i]] + t) && s[i := c] == p + ([c] + t);
    if Crc(0, s[i := c]) == Crc(0, s) {
      CrcInjective(Xor(q, Signed(s[i])), Xor(q, Signed(c)), t);
      XorInjective(q, Signed(s[i]), Signed(c));
    }
  }

  // ---------------------------------------------------------------- reading numbers

  predicate IsSpace(c: char) {
    c == ' ' || 9 <= c as int <= 13
  }

  /** The value of a digit letter, 36 for a character that is none. */
  function DigitValue(c: char): nat {
    if '0' <= c <= '9' then c as int - '0' as int
    else if 'a' <= c <= 'z' then c as int - 'a' as int + 10
    else if 'A' <= c <= 'Z' then c as int - 'A' as int + 10
    else 36
  }

  /** The digits of `s` up to the first character that is none, after those already in `acc`. */
  function ReadDigits(s: string, radix: nat, acc: nat): nat {
    if s == [] || DigitValue(s[0]) >= radix then acc
    else ReadDigits(s[1..], radix, acc * radix + DigitValue(s[0]))
  }

  function SkipSpace(s: string): string {
    if s == [] || !IsSpace(s[0]) then s else SkipSpace(s[1..])
  }

  const LONG_MAX := 0x7FFF_FFFF_FFFF_FFFF

  /** C's `strtol` with a 64-bit `long`. */
  function Strtol(str: string, radix: nat): int {
    var s := SkipSpace(str);
    var negative := s != [] && s[0] == '-';
    var u := if s != [] && (s[0] == '-' || s[0] == '+') then s[1..] else s;
    var v := if radix == 16 && |u| >= 2 && u[0] == '0' && (u[1] == 'x' || u[1] == 'X') then u[2..] else u;
    var n: int := ReadDigits(v, radix, 0);
    if negative then
      if n > LONG_MAX then -LONG_MAX - 1 else -n
    else
      if n > LONG_MAX then LONG_MAX else n
  }

  /** `nmea_atoi`: texts that do not fit the conversion buffer read as 0. */
  function Atoi(str: string, radix: nat): (i: int)
    ensures IsInt(i)
  {
    if |str| < CONVSTR_BUF then ToInt(Strtol(str, radix)) else 0
  }

  // ---------------------------------------------------------------- printing numbers

  /** printf's `%02x` of a number below 256. */
  function Hex2(n: nat): (s: string)
    requires n < 256
    ensures |s| == 2
  {
    [Digit(n / 16), Digit(n % 16)]
  }

  function HexDigits(n: nat): (s: string)
    ensures s != ""
  {
    if n < 16 then [Digit(n)] else HexDigits(n / 16) + [Digit(n % 16)]
  }

  /** printf's `%02x` of an int, which is taken as unsigned. */
  function PrintHex(n: int): string {
    var u := n % 0x1_0000_0000;
    if u < 256 then Hex2(u) else HexDigits(u)
  }

  function Pow16(k: nat): nat {
    if k == 0 then 1 else 16 * Pow16(k - 1)
  }

  lemma {:induction false} HexLength(n: nat, k: nat)
    requires k > 0 && n < Pow16(k)
    ensures |HexDigits(n)| <= k
  {
    if n >= 16 {
      HexLength(n / 16, k - 1);
    }
  }

  lemma PrintHexLength(n: int)
    ensures 2 <= |PrintHex(n)| <= 8
  {
    var u := n % 0x1_0000_0000;
    assert Pow16(8) == 0x1_0000_0000;
    HexLength(u, 8);
    if u >= 256 {
      assert |HexDigits(u / 16)| >= 1;
    }
  }

  lemma {:induction false} ReadDigitsAppend(s: string, d: char, acc: nat)
    requires IsDigit(d) && AllDigits(s)
    ensures ReadDigits(s + [d], 10, acc) == ReadDigits(s, 10, acc) * 10 + DigitValue(d)
  {
    if s == [] {
      assert ([d])[1..] == [];
    } else {
      assert (s + [d])[1..] == s[1..] + [d];
      ReadDigitsAppend(s[1..], d, acc * 10 + DigitValue(s[0]));
    }
  }

  lemma {:induction false} ReadDec(n: nat)
    ensures ReadDigits(Dec(n), 10, 0) == n
  {
    if n >= 10 {
      ReadDec(n / 10);
      ReadDigitsAppend(Dec(n / 10), Digit(n % 10), 0);
    }
  }

  lemma {:induction false} ReadZeros(k: int, s: string)
    ensures ReadDigits(Zeros(k) + s, 10, 0) == ReadDigits(s, 10, 0)
  {
    if k <= 0 {
      assert Zeros(k) + s == s;
    } else {
      assert (Zeros(k) + s)[1..] == Zeros(k - 1) + s;
      ReadZeros(k - 1, s);
    }
  }

  function Pow10(k: nat): nat {
    if k == 0 then 1 else 10 * Pow10(k - 1)
  }

  lemma {:induction false} DecLength(n: nat, k: nat)
    requires k > 0 && n < Pow10(k)
    ensures |Dec(n)| <= k
  {
    if n >= 10 {
      DecLength(n / 10, k - 1);
    }
  }

  /** Printing an int and reading it back gives the same int, whatever the width. */
  lemma AtoiPrintInt(v: int, width: nat)
    requires IsInt(v) && width < 200
    ensures |PrintInt(v, width)| < CONVSTR_BUF && Atoi(PrintInt(v, width), 10) == v
  {
    var n: nat := if v >= 0 then v else -v;
    var w: nat := if v >= 0 then width else if width > 0 then width - 1 else 0;
    assert Pow10(10) == 10_000_000_000;
    DecLength(n, 10);
    ReadDec(n);
    ReadZeros(w - |Dec(n)|, Dec(n));
    var s := PrintInt(v, width);
    assert SkipSpace(s) == s;
    if v < 0 {
      assert s[1..] == ZeroPad(Dec(n), w);
    }
  }

  lemma AtoiHex2(n: nat)
    requires n < 256
    ensures Atoi(Hex2(n), 16) == n
  {
    var s := Hex2(n);
    assert s[1..][1..] == [];
    assert ReadDigits(s, 16, 0) == ReadDigits(s[1..], 16, n / 16) == n;
  }
}
