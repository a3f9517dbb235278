/** Multiplication and division by a variable, defined by repeated addition and
    subtraction.  They are `*`, `/` and `%`; this form keeps every proof that
    only passes such a term along free of nonlinear arithmetic. */
module Arith {
  function Times(n: nat, d: nat): nat {
    if n == 0 then 0 else Times(n - 1, d) + d
  }

  function Quot(x: nat, d: nat): nat
    requires d > 0
  {
    if x < d then 0 else 1 + Quot(x - d, d)
  }

  function Rem(x: nat, d: nat): (r: nat)
    requires d > 0
    ensures r < d
  {
    if x < d then x else Rem(x - d, d)
  }

  lemma {:induction false} TimesIsMul(n: nat, d: nat)
    ensures Times(n, d) == n * d
  {
    if n > 0 {
      TimesIsMul(n - 1, d);
      assert (n - 1) * d == n * d - d;
    }
  }

  lemma {:induction false} TimesMono(i: nat, j: nat, d: nat)
    requires i < j
    ensures Times(i, d) + d <= Times(j, d)
  {
    if i + 1 < j {
      TimesMono(i, j - 1, d);
    }
  }

  lemma {:induction false} TimesAdd(i: nat, j: nat, d: nat)
    ensures Times(i + j, d) == Times(i, d) + Times(j, d)
  {
    if j > 0 {
      TimesAdd(i, j - 1, d);
    }
  }

  lemma {:induction false} TimesTimes(i: nat, n: nat, d: nat)
    ensures Times(Times(i, n), d) == Times(i, Times(n, d))
  {
    if i > 0 {
      TimesTimes(i - 1, n, d);
      TimesAdd(Times(i - 1, n), n, d);
    }
  }

  /** Division with remainder: the equation and its uniqueness. */
  lemma {:induction false} QuotRem(x: nat, d: nat)
    requires d > 0
    ensures x == Times(Quot(x, d), d) + Rem(x, d)
  {
    if x >= d {
      QuotRem(x - d, d);
    }
  }

  lemma QuotRemUnique(x: nat, d: nat, q: nat, r: nat)
    requires r < d && x == Times(q, d) + r
    ensures Quot(x, d) == q && Rem(x, d) == r
  {
    QuotRem(x, d);
    if q < Quot(x, d) {
      TimesMono(q, Quot(x, d), d);
    } else if Quot(x, d) < q {
      TimesMono(Quot(x, d), q, d);
    }
  }

  lemma {:induction false} QuotIsDiv(x: nat, d: nat)
    requires d > 0
    ensures Quot(x, d) == x / d && Rem(x, d) == x % d
  {
    var q, r := Quot(x, d), Rem(x, d);
    QuotRem(x, d);
    TimesIsMul(q, d);
    var e := q - x / d;
    assert e * d == x % d - r by {
      assert x / d * d + x % d == x;
      assert e * d == q * d - x / d * d;
    }
    if e >= 1 {
      MulMono(1, e, d);
    } else if e <= -1 {
      MulMono(e, -1, d);
    }
  }

  lemma {:induction false} QuotMono(a: nat, b: nat, d: nat)
    requires a <= b && d > 0
    ensures Quot(a, d) <= Quot(b, d)
  {
    if a >= d {
      QuotMono(a - d, b - d, d);
    }
  }

  lemma MulMono(a: int, b: int, d: int)
    requires a <= b && 0 <= d
    ensures a * d <= b * d
  {
    assert (b - a) * d >= 0;
  }

  const SIZE_MAX := 0xFFFF_FFFF_FFFF_FFFF

  /** `size_t` decrement. */
  function Decremented(n: nat): (r: nat)
    ensures n > 0 ==> r == n - 1
  {
    if n == 0 then SIZE_MAX else n - 1
  }
}
