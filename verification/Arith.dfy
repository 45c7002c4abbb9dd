/**
 Products, quotients and remainders of natural numbers.

 Addresses, block numbers and byte counts are products and quotients of the device's geometry, which
 is arbitrary. They are written with `Mul`, `Quot` and `Rem`, defined by repeated addition and
 subtraction, so that the verifier uses them only through the lemmas below and never expands a
 non-linear term by itself. `MulIs` and `QuotRemIs` show that they are `*`, `/` and `%`.
 */
module Arith {

  function Mul(a: int, n: int): (r: int)
    ensures 0 <= n ==> 0 <= r
    decreases a
  {
    if a <= 0 then 0 else Mul(a - 1, n) + n
  }

  function Quot(x: int, n: int): (r: int)
    ensures 0 <= r
    decreases x
  {
    if n <= 0 || x < n then 0 else Quot(x - n, n) + 1
  }

  function Rem(x: int, n: int): (r: int)
    ensures 0 <= x && 0 < n ==> 0 <= r < n
    decreases x
  {
    if n <= 0 || x < n then x else Rem(x - n, n)
  }

  lemma {:induction false} MulIs(a: int, n: int)
    requires 0 <= a
    ensures Mul(a, n) == a * n
  {
    if a > 0 {
      MulIs(a - 1, n);
      assert (a - 1) * n + n == a * n;
    }
  }

  lemma {:induction false} QuotRemIs(x: int, n: int)
    requires 0 <= x && 0 < n
    ensures Quot(x, n) == x / n && Rem(x, n) == x % n
    decreases x
  {
    if n <= x {
      QuotRemIs(x - n, n);
      DivisionStep(x, n);
    } else {
      assert x == 0 * n + x;
      DivisionUnique(x, 0, x, n);
    }
  }

  lemma DivisionUnique(x: int, q: int, r: int, n: int)
    requires 0 <= r < n && x == q * n + r
    ensures x / n == q && x % n == r
  {
    var q', r' := x / n, x % n;
    assert x == q' * n + r';
    if q' < q {
      ProductMono(q' + 1, q, n);
    } else if q < q' {
      ProductMono(q + 1, q', n);
    }
  }

  lemma ProductMono(a: int, b: int, n: int)
    requires a <= b && 0 <= n
    ensures a * n <= b * n
  {
  }

  lemma DivisionStep(x: int, n: int)
    requires 0 < n
    ensures x / n == (x - n) / n + 1 && x % n == (x - n) % n
  {
    var q, r := (x - n) / n, (x - n) % n;
    assert x == (q + 1) * n + r;
    DivisionUnique(x, q + 1, r, n);
  }

  // ---- Products ----

  lemma {:induction false} MulMono(a: int, b: int, n: int)
    requires a <= b && 0 <= n
    ensures 0 <= Mul(a, n) <= Mul(b, n)
    decreases b
  {
    if b > 0 {
      if a == b {
        MulMono(a - 1, b - 1, n);
      } else {
        MulMono(a, b - 1, n);
      }
    }
  }

  lemma {:induction false} MulAtLeast(a: int, n: int)
    requires 1 <= n
    ensures a <= Mul(a, n)
    decreases a
  {
    if a > 0 {
      MulAtLeast(a - 1, n);
    }
  }

  lemma {:induction false} MulAdd(a: int, b: int, n: int)
    requires 0 <= a && 0 <= b
    ensures Mul(a + b, n) == Mul(a, n) + Mul(b, n)
  {
    if b > 0 {
      MulAdd(a, b - 1, n);
    }
  }

  lemma {:induction false} MulAssoc(a: int, b: int, n: int)
    requires 0 <= a && 0 <= b
    ensures Mul(a, Mul(b, n)) == Mul(Mul(a, b), n)
  {
    if a > 0 {
      MulAssoc(a - 1, b, n);
      MulMono(0, a - 1, b);
      MulAdd(Mul(a - 1, b), b, n);
    }
  }

  // ---- Quotients and remainders ----

  /** Every number is its quotient's worth of `n` plus its remainder. */
  lemma {:induction false} QuotRem(x: int, n: int)
    requires 0 <= x && 0 < n
    ensures x == Mul(Quot(x, n), n) + Rem(x, n)
    ensures 0 <= Rem(x, n) < n && 0 <= Quot(x, n)
    decreases x
  {
    if n <= x {
      QuotRem(x - n, n);
    }
  }

  /** Quotient and remainder are determined by the decomposition `q * n + r`. */
  lemma {:induction false} DivModUnique(q: int, r: int, n: int)
    requires 0 <= q && 0 <= r < n
    ensures Quot(Mul(q, n) + r, n) == q && Rem(Mul(q, n) + r, n) == r
  {
    if q > 0 {
      MulMono(0, q - 1, n);
      DivModUnique(q - 1, r, n);
    }
  }

  /** Stepping from `x` to `x + 1` either bumps the remainder or carries into the quotient. */
  lemma DivModSucc(x: int, n: int)
    requires 0 <= x && 0 < n
    ensures 0 <= Rem(x, n) < n
    ensures Rem(x, n) + 1 < n ==> Quot(x + 1, n) == Quot(x, n) && Rem(x + 1, n) == Rem(x, n) + 1
    ensures Rem(x, n) + 1 == n ==> Quot(x + 1, n) == Quot(x, n) + 1 && Rem(x + 1, n) == 0
  {
    QuotRem(x, n);
    if Rem(x, n) + 1 < n {
      DivModUnique(Quot(x, n), Rem(x, n) + 1, n);
    } else {
      DivModUnique(Quot(x, n) + 1, 0, n);
    }
  }

  /** `x < q * n` exactly when the quotient of `x` is below `q`. */
  lemma DivBound(x: int, q: int, n: int)
    requires 0 <= x && 0 < n && 0 <= q
    ensures x < Mul(q, n) <==> Quot(x, n) < q
  {
    QuotRem(x, n);
    if Quot(x, n) < q {
      MulMono(Quot(x, n) + 1, q, n);
    } else {
      MulMono(q, Quot(x, n), n);
    }
  }

  /** The order on numbers is the lexicographic order on (quotient, remainder). */
  lemma DivModOrder(x: int, y: int, n: int)
    requires 0 <= x < y && 0 < n
    ensures Quot(x, n) < Quot(y, n) || (Quot(x, n) == Quot(y, n) && Rem(x, n) < Rem(y, n))
  {
    QuotRem(x, n);
    QuotRem(y, n);
    if Quot(y, n) < Quot(x, n) {
      MulMono(Quot(y, n) + 1, Quot(x, n), n);
    }
  }

  /** A multiple of `n` has remainder zero and the expected quotient. */
  lemma MultipleDiv(q: int, n: int)
    requires 0 <= q && 0 < n
    ensures Quot(Mul(q, n), n) == q && Rem(Mul(q, n), n) == 0 && 0 <= Mul(q, n)
  {
    DivModUnique(q, 0, n);
    MulMono(0, q, n);
  }

  /** Adding a multiple of `n` moves the quotient and keeps the remainder. */
  lemma {:induction false} ModOfSum(q: int, x: int, n: int)
    requires 0 <= q && 0 <= x && 0 < n
    ensures Rem(Mul(q, n) + x, n) == Rem(x, n) && Quot(Mul(q, n) + x, n) == q + Quot(x, n)
  {
    if q > 0 {
      MulMono(0, q - 1, n);
      ModOfSum(q - 1, x, n);
    }
  }
}
