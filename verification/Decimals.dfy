/** Numbers in decimal text, and blanks. */
module Decimals {
  predicate IsDigit(c: char) {
    '0' <= c <= '9'
  }

  predicate AllDigits(s: string) {
    forall i | 0 <= i < |s| :: IsDigit(s[i])
  }

  function Digit(d: nat): char
    requires d < 16
  {
    if d < 10 then ('0' as int + d) as char else ('a' as int + d - 10) as char
  }

  function Dec(n: nat): (s: string)
    ensures s != [] && AllDigits(s)
  {
    if n < 10 then [Digit(n)] else Dec(n / 10) + [Digit(n % 10)]
  }

  function Zeros(k: int): (s: string)
    ensures AllDigits(s) && forall i | 0 <= i < |s| :: s[i] == '0'
    ensures |s| == if k > 0 then k else 0
  {
    if k <= 0 then "" else "0" + Zeros(k - 1)
  }

  function ZeroPad(s: string, width: nat): string {
    Zeros(width - |s|) + s
  }

  /** printf's `%0<width>d` (and `%1d`). */
  function PrintInt(v: int, width: nat): (s: string)
    ensures s != [] && forall i | 0 <= i < |s| :: IsDigit(s[i]) || s[i] == '-'
  {
    if v >= 0 then ZeroPad(Dec(v), width)
    else "-" + ZeroPad(Dec(-v), if width > 0 then width - 1 else 0)
  }

  function Spaces(n: nat): (s: string)
    ensures |s| == n && forall i | 0 <= i < n :: s[i] == ' '
  {
    seq(n, _ => ' ')
  }
}
