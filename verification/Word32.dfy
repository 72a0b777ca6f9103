/** The 32-bit unsigned cells of the Forth interpreter and the C arithmetic on them. */
module Word32 {
  const MODULUS := 0x1_0000_0000
  const SIGN_BIT := 0x8000_0000
  type u32 = x: int | 0 <= x < 0x1_0000_0000

  /** What assigning `x` to a `uint32_t` stores. */
  function Wrap(x: int): u32 {
    x % MODULUS
  }

  /** The cast `(int)v`. */
  function Signed(v: u32): int {
    if v < SIGN_BIT then v else v - MODULUS
  }

  function Min(a: int, b: int): int {
    if a < b then a else b
  }

  function Abs(x: int): nat {
    if x < 0 then -x else x
  }

  /** C division: truncates toward zero, unlike Dafny's `/`. */
  function TruncDiv(a: int, b: int): int
    requires b != 0
  {
    if (a < 0) == (b < 0) then Abs(a) / Abs(b) else -(Abs(a) / Abs(b))
  }

  /** The quotient leaves a remainder smaller than the divisor that takes the dividend's sign. */
  lemma TruncDivRemainder(a: int, b: int)
    requires b != 0
    ensures var r := a - b * TruncDiv(a, b);
            Abs(r) < Abs(b) && (r == 0 || (r < 0) == (a < 0))
  {
  }

  /** Signed and unsigned readings of a cell determine each other. */
  lemma SignedWrap(v: u32)
    ensures -SIGN_BIT <= Signed(v) < SIGN_BIT && Wrap(Signed(v)) == v
  {
  }

  /** The only quotient of two cells that is not an `int` is INT_MIN / -1. */
  lemma QuotientOverflow(a: u32, b: u32)
    requires b != 0
    ensures -SIGN_BIT <= TruncDiv(Signed(a), Signed(b)) < SIGN_BIT
            <==> !(a == SIGN_BIT && b == MODULUS - 1)
  {
  }

  /** Adding multiples of 2^32 is invisible. */
  lemma WrapShift(x: int, k: int)
    ensures Wrap(x + MODULUS * k) == Wrap(x)
  {
  }

  /** Wrapping may be postponed to the end of a sum. */
  lemma WrapAbsorbs(x: int, y: int, f: int)
    ensures Wrap(f * Wrap(x) + y) == Wrap(f * x + y)
  {
    var q := x / MODULUS;
    assert f * x + y == f * Wrap(x) + y + MODULUS * (f * q);
    WrapShift(f * Wrap(x) + y, f * q);
  }
}
