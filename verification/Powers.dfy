/** Powers of natural numbers, and the sizes of machine words. */
module Powers {
  const U32 := 0x1_0000_0000
  const U64 := 0x1_0000_0000_0000_0000

  function Pow(b: nat, e: nat): (p: nat)
    ensures b > 0 ==> p > 0
    decreases e
  {
    if e == 0 then 1 else b * Pow(b, e - 1)
  }

  lemma {:induction false} PowAdd(b: nat, x: nat, y: nat)
    ensures Pow(b, x + y) == Pow(b, x) * Pow(b, y)
    decreases x
  {
    if x > 0 {
      PowAdd(b, x - 1, y);
      MulAssoc(b, Pow(b, x - 1), Pow(b, y));
    }
  }

  lemma Interchange(a: int, b: int, x: int, y: int)
    ensures (a * b) * (x * y) == (a * x) * (b * y)
  {
    MulAssoc(a * b, x, y);
    MulSwap(a, b, x);
    MulAssoc(a * x, b, y);
  }

  lemma {:induction false} PowOfProduct(a: nat, b: nat, e: nat)
    ensures Pow(a * b, e) == Pow(a, e) * Pow(b, e)
    decreases e
  {
    if e > 0 {
      PowOfProduct(a, b, e - 1);
      Interchange(a, b, Pow(a, e - 1), Pow(b, e - 1));
    }
  }

  lemma {:induction false} PowOfPow(b: nat, x: nat, y: nat)
    ensures Pow(Pow(b, x), y) == Pow(b, x * y)
    decreases y
  {
    if y > 0 {
      PowOfPow(b, x, y - 1);
      PowAdd(b, x, x * (y - 1));
      assert x + x * (y - 1) == x * y;
    }
  }

  lemma {:induction false} PowGrows(b: nat, x: nat, y: nat)
    requires b > 0 && x <= y
    ensures Pow(b, x) <= Pow(b, y)
    decreases y
  {
    if x < y {
      PowGrows(b, x, y - 1);
      assert Pow(b, y - 1) <= b * Pow(b, y - 1);
    }
  }

  lemma {:induction false} PowBiggerBase(a: nat, b: nat, e: nat)
    requires a <= b
    ensures Pow(a, e) <= Pow(b, e)
    decreases e
  {
    if e > 0 {
      PowBiggerBase(a, b, e - 1);
      MulLe(a, b, Pow(a, e - 1), Pow(b, e - 1));
    }
  }

  lemma {:induction false} PowStrict(b: nat, x: nat, y: nat)
    requires b > 1
    ensures Pow(b, x) < Pow(b, y) <==> x < y
  {
    if x < y {
      PowGrows(b, x + 1, y);
      assert Pow(b, x) < b * Pow(b, x);
    } else {
      PowGrows(b, y, x);
    }
  }

  lemma MulLe(a: nat, b: nat, x: nat, y: nat)
    requires a <= b && x <= y
    ensures a * x <= b * y
  {
    assert a * x <= b * x;
    assert b * x <= b * y;
  }

  lemma MulAssoc(a: int, b: int, c: int)
    ensures a * b * c == a * (b * c)
  {
  }

  lemma MulSwap(a: int, b: int, c: int)
    ensures a * b * c == a * c * b
  {
  }

  lemma Distribute(a: int, b: int, c: int)
    ensures (a + b) * c == a * c + b * c
  {
  }

  lemma AtLeastOnce(k: int, d: int)
    requires k >= 1 && d > 0
    ensures k * d >= d
  {
    Distribute(k - 1, 1, d);
  }

  lemma NotBelow(d: int, q: int, r: int, q': int, r': int)
    requires 0 <= r < d && 0 <= r' < d && q * d + r == q' * d + r'
    ensures q >= q'
  {
    if q < q' {
      Distribute(q, q' - q, d);
      AtLeastOnce(q' - q, d);
    }
  }

  lemma SameQuotient(d: int, q: int, r: int, q': int, r': int)
    requires 0 <= r < d && 0 <= r' < d && q * d + r == q' * d + r'
    ensures q == q' && r == r'
  {
    NotBelow(d, q, r, q', r');
    NotBelow(d, q', r', q, r);
  }

  /** Quotient and remainder are determined by what they multiply back to. */
  lemma DivModUnique(n: int, d: int, q: int, r: int)
    requires 0 <= r < d && n == q * d + r
    ensures n / d == q && n % d == r
  {
    SameQuotient(d, q, r, n / d, n % d);
  }

  lemma {:induction false} Pow2NotFives(k: nat)
    ensures Pow(2, k) % 5 != 0
    decreases k
  {
    if k > 0 {
      Pow2NotFives(k - 1);
    }
  }
}
