/** Products digit by digit: position k of a product collects the terms a[t] * b[k - t]. */
module Convolution {
  import opened Powers
  import opened Bigits

  function At(s: seq<Bigit>, k: int): nat {
    if 0 <= k < |s| then s[k] else 0
  }

  /** Terms t of position k, lo <= t < hi. */
  function Terms(a: seq<Bigit>, b: seq<Bigit>, k: int, lo: int, hi: int): nat
    decreases hi - lo
  {
    if lo >= hi then 0 else Terms(a, b, k, lo, hi - 1) + At(a, hi - 1) * At(b, k - hi + 1)
  }

  function Conv(a: seq<Bigit>, b: seq<Bigit>, k: nat): nat {
    Terms(a, b, k, 0, k + 1)
  }

  /** The first n positions together, carries and all. */
  function ConvSum(a: seq<Bigit>, b: seq<Bigit>, n: nat): nat {
    if n == 0 then 0 else ConvSum(a, b, n - 1) + Conv(a, b, n - 1) * BasePow(n - 1)
  }

  lemma {:induction false} SplitTerms(a: seq<Bigit>, b: seq<Bigit>, k: int, lo: int, mid: int, hi: int)
    requires lo <= mid <= hi
    ensures Terms(a, b, k, lo, hi) == Terms(a, b, k, lo, mid) + Terms(a, b, k, mid, hi)
    decreases hi - mid
  {
    if mid < hi {
      SplitTerms(a, b, k, lo, mid, hi - 1);
    }
  }

  lemma {:induction false} ShiftTerms(a: seq<Bigit>, b: seq<Bigit>, k: int, lo: nat, hi: int)
    requires a != []
    ensures Terms(a, b, k, lo + 1, hi + 1) == Terms(a[1..], b, k - 1, lo, hi)
    decreases hi - lo
  {
    if lo < hi {
      ShiftTerms(a, b, k, lo, hi - 1);
      assert At(a, hi) == At(a[1..], hi - 1);
    }
  }

  lemma {:induction false} NoTerms(a: seq<Bigit>, b: seq<Bigit>, k: int, lo: int, hi: int)
    requires forall t :: lo <= t < hi ==> At(a, t) == 0 || At(b, k - t) == 0
    ensures Terms(a, b, k, lo, hi) == 0
    decreases hi - lo
  {
    if lo < hi {
      NoTerms(a, b, k, lo, hi - 1);
      assert At(a, hi - 1) == 0 || At(b, k - (hi - 1)) == 0;
    }
  }

  lemma {:induction false} TermsBound(a: seq<Bigit>, b: seq<Bigit>, k: int, lo: int, hi: int)
    requires lo <= hi
    ensures Terms(a, b, k, lo, hi) <= (hi - lo) * ((BASE - 1) * (BASE - 1))
    decreases hi - lo
  {
    if lo < hi {
      TermsBound(a, b, k, lo, hi - 1);
      MulLe(At(a, hi - 1), BASE - 1, At(b, k - hi + 1), BASE - 1);
      Distribute(hi - 1 - lo, 1, (BASE - 1) * (BASE - 1));
    }
  }

  /** Only the terms whose both factors are stored matter. */
  lemma StoredTerms(s: seq<Bigit>, k: nat)
    requires |s| <= k < 2 * |s|
    ensures Conv(s, s, k) == Terms(s, s, k, k - |s| + 1, |s|)
  {
    SplitTerms(s, s, k, 0, k - |s| + 1, k + 1);
    SplitTerms(s, s, k, k - |s| + 1, |s|, k + 1);
    NoTerms(s, s, k, 0, k - |s| + 1);
    NoTerms(s, s, k, |s|, k + 1);
  }

  lemma ConvCons(a: seq<Bigit>, b: seq<Bigit>, k: nat)
    requires a != []
    ensures Conv(a, b, k) == a[0] * At(b, k) + (if k == 0 then 0 else Conv(a[1..], b, k - 1))
  {
    SplitTerms(a, b, k, 0, 1, k + 1);
    assert Terms(a, b, k, 0, 1) == Terms(a, b, k, 0, 0) + At(a, 0) * At(b, k);
    if k > 0 {
      ShiftTerms(a, b, k, 0, k);
    }
  }

  /** b, read as far as position n. */
  function Spread(b: seq<Bigit>, n: nat): nat {
    if n == 0 then 0 else Spread(b, n - 1) + At(b, n - 1) * BasePow(n - 1)
  }

  lemma {:induction false} SpreadOfPart(b: seq<Bigit>, n: nat)
    requires n <= |b|
    ensures Spread(b, n) == Eval(b[..n])
    decreases n
  {
    if n > 0 {
      SpreadOfPart(b, n - 1);
      EvalTake(b, n - 1);
    }
  }

  lemma {:induction false} SpreadIsEval(b: seq<Bigit>, n: nat)
    requires n >= |b|
    ensures Spread(b, n) == Eval(b)
    decreases n
  {
    if n == |b| {
      SpreadOfPart(b, n);
      assert b[..n] == b;
    } else {
      SpreadIsEval(b, n - 1);
      assert At(b, n - 1) == 0;
    }
  }

  lemma {:induction false} ConvSumCons(a: seq<Bigit>, b: seq<Bigit>, n: nat)
    requires a != [] && n > 0
    ensures ConvSum(a, b, n) == a[0] * Spread(b, n) + BASE * ConvSum(a[1..], b, n - 1)
    decreases n
  {
    ConvCons(a, b, n - 1);
    if n == 1 {
      assert ConvSum(a, b, 1) == ConvSum(a, b, 0) + Conv(a, b, 0) * BasePow(0);
      assert Spread(b, 1) == Spread(b, 0) + At(b, 0) * BasePow(0);
    } else {
      ConvSumCons(a, b, n - 1);
      BasePowStep(n - 2);
      CollectTerm(a[0], Spread(b, n - 1), At(b, n - 1),
                  ConvSum(a[1..], b, n - 2), Conv(a[1..], b, n - 2), BasePow(n - 2));
    }
  }

  lemma CollectTerm(x: int, spread: int, y: int, sum: int, conv: int, p: int)
    ensures x * spread + BASE * sum + (x * y + conv) * (BASE * p)
         == x * (spread + y * (BASE * p)) + BASE * (sum + conv * p)
  {
    var q := BASE * p;
    Distribute(x * y, conv, q);
    MulAssoc(x, y, q);
    MulAssoc(conv, BASE, p);
    MulSwap(conv, BASE, p);
    assert conv * q == BASE * (conv * p);
    assert x * (spread + y * q) == x * spread + x * (y * q);
  }

  /** All positions together make the product. */
  lemma {:induction false} ConvIsProduct(a: seq<Bigit>, b: seq<Bigit>, n: nat)
    requires n >= |a| + |b|
    ensures ConvSum(a, b, n) == Eval(a) * Eval(b)
    decreases |a|
  {
    if a == [] {
      NothingTimes(b, n);
    } else {
      ConvSumCons(a, b, n);
      SpreadIsEval(b, n);
      ConvIsProduct(a[1..], b, n - 1);
      Distribute(a[0], BASE * Eval(a[1..]), Eval(b));
      MulAssoc(BASE, Eval(a[1..]), Eval(b));
    }
  }

  lemma {:induction false} NothingTimes(b: seq<Bigit>, n: nat)
    ensures ConvSum([], b, n) == 0
    decreases n
  {
    if n > 0 {
      NothingTimes(b, n - 1);
      NoTerms([], b, n - 1, 0, n);
    }
  }

  // ----- The accumulator that stands in for a 128-bit integer -----

  /** Two 64-bit words; `+=` and `>>= 32` are the operators of struct accumulator. */
  datatype Accumulator = Accumulator(lower: nat, upper: nat) {
    predicate Valid() {
      lower < U64 && upper < U64
    }

    function Value(): nat {
      lower + U64 * upper
    }

    function Add(n: nat): Accumulator {
      var low := (lower + n) % U64;
      Accumulator(low, if low < n then (upper + 1) % U64 else upper)
    }

    function ShiftRight32(): Accumulator {
      Accumulator(upper * BASE % U64 + lower / BASE, upper / BASE)
    }

    function ToBigit(): Bigit {
      lower % BASE
    }
  }

  /** As long as 128 bits are enough, the two words behave as the integer they stand for. */
  lemma AddExact(a: Accumulator, n: nat)
    requires a.Valid() && n < U64 && a.Value() + n < U64 * U64
    ensures a.Add(n).Valid() && a.Add(n).Value() == a.Value() + n
  {
  }

  lemma ShiftExact(a: Accumulator)
    requires a.Valid()
    ensures a.ShiftRight32().Valid()
    ensures a.ShiftRight32().Value() == a.Value() / BASE && a.ToBigit() == a.Value() % BASE
  {
    assert U64 == BASE * BASE;
    assert a.upper * BASE % U64 == a.upper % BASE * BASE;
  }
}
