/** The numbers of the platform: a 32-bit `int` in two's complement and a 64-bit `size_t`. */
module Machine {
  const INT_MAX := 0x7FFF_FFFF
  const SIZE_T := 0x1_0000_0000_0000_0000

  predicate IsInt(i: int) {
    -INT_MAX - 1 <= i <= INT_MAX
  }

  /** The conversion of a wider number to an `int`, and what is left of an `int` that has overflowed. */
  function ToInt(n: int): (i: int)
    ensures IsInt(i) && (IsInt(n) ==> i == n)
  {
    var m := n % 0x1_0000_0000;
    if m > INT_MAX then m - 0x1_0000_0000 else m
  }

  /** The conversion of a number to `size_t`: a negative one becomes huge. */
  function ToSize(n: int): (k: nat)
    ensures k < SIZE_T && (0 <= n < SIZE_T ==> k == n)
    ensures -SIZE_T < n < 0 ==> k == n + SIZE_T
  {
    n % SIZE_T
  }
}
