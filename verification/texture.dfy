/** The procedural surface colour of the UV-mapped sphere in the multithreaded
    renderer: a checkerboard over the integer cell coordinates `iu`, `iv` that
    the callback derives from the surface coordinates. */
module Checker {
  import Arith

  /** The two colours the callback returns: `Color(255, 0, 255)` and the
      default-constructed `Color()`. */
  datatype Swatch = Magenta | Plain

  function Abs(a: int): nat
  {
    if a < 0 then -a else a
  }

  /** The C++ remainder `a % b` on `int`: the quotient truncates toward zero,
      so the remainder takes the sign of `a` (Dafny's `%` never goes negative). */
  function CRem(a: int, b: int): (r: int)
    requires b != 0
    ensures Abs(r) < Abs(b)
    ensures a >= 0 ==> r >= 0
    ensures a < 0 ==> r <= 0
    ensures (a - r) % Abs(b) == 0
  {
    var m := Abs(b);
    if a >= 0 then
      assert a - a % m == (a / m) * m;
      Arith.DivModUnique(a - a % m, m, a / m, 0);
      a % m
    else
      assert a + (-a) % m == -((-a) / m) * m;
      Arith.DivModUnique(a + (-a) % m, m, -((-a) / m), 0);
      -((-a) % m)
  }

  /** Truncation changes the sign of a remainder but not whether it is zero. */
  lemma CRemZeroIffEven(a: int)
    ensures CRem(a, 2) == 0 <==> a % 2 == 0
  {
    if a < 0 {
      assert (-a) % 2 == 0 <==> a % 2 == 0 by {
        assert a == -(-a);
      }
    }
  }

  /** The callback from `iu`, `iv` on, with the source's precedence:
      `(!even(iu) && even(iv)) || (even(iu) && !even(iv))`. */
  function UvMap(iu: int, iv: int): (c: Swatch)
    ensures c == Magenta <==> (iu + iv) % 2 == 1
  {
    CRemZeroIffEven(iu);
    CRemZeroIffEven(iv);
    if (!(CRem(iu, 2) == 0) && (CRem(iv, 2) == 0)) || ((CRem(iu, 2) == 0) && !(CRem(iv, 2) == 0)) then
      Magenta
    else
      Plain
  }

  /** A checkerboard: stepping one cell in either direction, including across
      zero where the truncating remainder turns negative, swaps the colour,
      and stepping two cells keeps it. */
  lemma UvMapCheckerboard(iu: int, iv: int)
    ensures UvMap(iu + 1, iv) != UvMap(iu, iv)
    ensures UvMap(iu, iv + 1) != UvMap(iu, iv)
    ensures UvMap(iu + 2, iv) == UvMap(iu, iv)
    ensures UvMap(iu, iv) == UvMap(iv, iu)
  {
    assert (iu + 1 + iv) % 2 == 1 <==> (iu + iv) % 2 == 0;
    assert (iu + iv + 1) % 2 == 1 <==> (iu + iv) % 2 == 0;
    assert (iu + 2 + iv) % 2 == (iu + iv) % 2;
  }
}
