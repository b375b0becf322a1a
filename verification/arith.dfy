/** Natural-number multiplication and division written out as repeated
    addition and subtraction, with the facts the pixel-address proofs lean on.
    Being recursive, `Mul`, `Div` and `Mod` are unfolded only where a proof
    asks for them, which keeps the solver out of nonlinear arithmetic
    elsewhere. `MulIsProduct` ties `Mul` to `*`; `DivMod` and `DivModUnique`
    characterise `Div` and `Mod` as quotient and remainder. */
module Arith {

  /** `a * b` as repeated addition. */
  function Mul(a: nat, b: nat): nat
    decreases a
  {
    if a == 0 then 0 else b + Mul(a - 1, b)
  }

  lemma {:induction false} MulIsProduct(a: nat, b: nat)
    ensures Mul(a, b) == a * b
    decreases a
  {
    if 0 < a {
      MulIsProduct(a - 1, b);
    }
  }

  function Div(x: nat, d: nat): nat
    requires 0 < d
    decreases x
  {
    if x < d then 0 else 1 + Div(x - d, d)
  }

  function Mod(x: nat, d: nat): nat
    requires 0 < d
    decreases x
  {
    if x < d then x else Mod(x - d, d)
  }

  lemma MulLeRight(a: nat, b: nat, c: nat)
    requires a <= b
    ensures a * c <= b * c
  {
  }

  /** `x` splits into `Div(x, d)` whole blocks of `d` and a remainder below `d`. */
  lemma {:induction false} DivMod(x: nat, d: nat)
    requires 0 < d
    ensures x == Div(x, d) * d + Mod(x, d)
    ensures Mod(x, d) < d
    decreases x
  {
    if d <= x {
      DivMod(x - d, d);
      assert (Div(x - d, d) + 1) * d == Div(x - d, d) * d + d;
    }
  }

  /** Division by `d` is characterised by any quotient/remainder pair. */
  lemma {:induction false} DivModUnique(x: nat, d: nat, q: nat, m: nat)
    requires m < d
    requires x == q * d + m
    ensures Div(x, d) == q
    ensures Mod(x, d) == m
    decreases q
  {
    if 0 < q {
      assert q * d == (q - 1) * d + d;
      MulLeRight(0, q - 1, d);
      DivModUnique(x - d, d, q - 1, m);
    }
  }

  /** An offset below `d * n` lies in one of the first `n` blocks of size `d`. */
  lemma DivBelow(x: nat, d: nat, n: nat)
    requires 0 < d
    requires x < d * n
    ensures Div(x, d) < n
  {
    DivMod(x, d);
    if n <= Div(x, d) {
      MulLeRight(n, Div(x, d), d);
      assert false;
    }
  }
}
