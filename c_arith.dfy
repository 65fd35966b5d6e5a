/**
 * C++ integer division and remainder, which round toward zero, and the
 * `WRAPPED_MOD(a, b)` macro of cpp/31TETo.cpp built on them. Dafny's own
 * `/` and `%` are Euclidean and serve as the reference definitions.
 */
module CArith {

  function Abs(x: int): nat
  {
    if x < 0 then -x else x
  }

  /** C++ `a / b`: the quotient rounded toward zero. */
  function CDiv(a: int, b: int): (q: int)
    requires b != 0
    ensures a >= 0 ==> 0 <= a - b * q < Abs(b)
    ensures a < 0 ==> -(Abs(b) as int) < a - b * q <= 0
  {
    if a >= 0 then a / b else -((-a) / b)
  }

  /** C++ `a % b`: the remainder that goes with `CDiv`, carrying the sign of a. */
  function CRem(a: int, b: int): (r: int)
    requires b != 0
    ensures Abs(r) < Abs(b)
    ensures a >= 0 ==> r >= 0
    ensures a < 0 ==> r <= 0
    ensures a == b * CDiv(a, b) + r
  {
    a - b * CDiv(a, b)
  }

  /** `WRAPPED_MOD(a, b)`: `((a) % (b) + (b)) % (b)` with C++ `%`. */
  function WrappedMod(a: int, b: int): (r: int)
    requires b != 0
    ensures b > 0 ==> 0 <= r < b
    ensures b < 0 ==> b < r <= 0
  {
    CRem(CRem(a, b) + b, b)
  }

  /** For a positive modulus the macro is the mathematical residue, Dafny's Euclidean `%`. */
  lemma WrappedModIsMod(a: int, b: int)
    requires b > 0
    ensures WrappedMod(a, b) == a % b
  {
    var x := CRem(a, b) + b;
    var q := CDiv(a, b) - 1 + CDiv(x, b);
    assert a == b * (CDiv(a, b) - 1) + x;
    assert a == b * q + CRem(x, b);
    ModUnique(a, b, q, CRem(x, b));
  }

  /** A quotient and remainder with `0 <= r < b` are Dafny's `/` and `%`. */
  lemma ModUnique(a: int, b: int, q: int, r: int)
    requires b > 0 && a == b * q + r && 0 <= r < b
    ensures a / b == q && a % b == r
  {
    var q', r' := a / b, a % b;
    assert b * q + r == b * q' + r';
    if q > q' {
      MulGrows(b, q - q');
      assert false;
    } else if q < q' {
      MulGrows(b, q' - q);
      assert false;
    }
  }

  lemma {:induction false} MulGrows(b: int, k: int)
    requires b > 0 && k >= 1
    ensures b * k >= b
    decreases k
  {
    if k > 1 {
      MulGrows(b, k - 1);
      assert b * k == b * (k - 1) + b;
    }
  }
}
