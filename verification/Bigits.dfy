/**
 * Multi-word numbers as values: little-endian base-2^32 digits with a word exponent, the meaning
 * of `bigint` in tools/unpacker/fmt/format-inl.h.
 */
module Bigits {
  import opened Powers

  const BASE := 0x1_0000_0000

  type Bigit = b: int | 0 <= b < BASE

  function Eval(s: seq<Bigit>): (v: nat)
  {
    if s == [] then 0 else s[0] + BASE * Eval(s[1..])
  }

  function BasePow(k: nat): (p: nat)
    ensures p > 0
  {
    Pow(BASE, k)
  }

  /** The number a bigint stands for. */
  function Value(s: seq<Bigit>, exp: nat): nat {
    Eval(s) * BasePow(exp)
  }

  lemma BasePowStep(k: nat)
    ensures BasePow(k + 1) == BASE * BasePow(k)
  {
  }

  lemma {:induction false} EvalConcat(a: seq<Bigit>, b: seq<Bigit>)
    ensures Eval(a + b) == Eval(a) + BasePow(|a|) * Eval(b)
    decreases |a|
  {
    if a == [] {
      assert a + b == b;
    } else {
      assert (a + b)[1..] == a[1..] + b;
      EvalConcat(a[1..], b);
      assert BASE * (BasePow(|a| - 1) * Eval(b)) == BASE * BasePow(|a| - 1) * Eval(b);
    }
  }

  lemma EvalSnoc(s: seq<Bigit>, x: Bigit)
    ensures Eval(s + [x]) == Eval(s) + BasePow(|s|) * x
  {
    EvalConcat(s, [x]);
    EvalOne(x);
  }

  lemma EvalOne(x: Bigit)
    ensures Eval([x]) == x
  {
    assert [x][1..] == [];
    assert Eval([]) == 0;
  }

  lemma EvalTake(s: seq<Bigit>, i: nat)
    requires i < |s|
    ensures Eval(s[..i + 1]) == Eval(s[..i]) + BasePow(i) * s[i]
  {
    assert s[..i + 1] == s[..i] + [s[i]];
    EvalSnoc(s[..i], s[i]);
  }

  lemma {:induction false} EvalBound(s: seq<Bigit>)
    ensures Eval(s) < BasePow(|s|)
    decreases |s|
  {
    if s != [] {
      EvalBound(s[1..]);
    }
  }

  lemma EvalTop(s: seq<Bigit>)
    requires s != [] && s[|s| - 1] != 0
    ensures Eval(s) >= BasePow(|s| - 1)
  {
    EvalTake(s, |s| - 1);
    assert s[..|s|] == s;
    MulLe(BasePow(|s| - 1), BasePow(|s| - 1), 1, s[|s| - 1]);
  }

  /** A number at least as large as its top position has a non-zero top digit. */
  lemma TopOf(s: seq<Bigit>)
    requires s != [] && Eval(s) >= BasePow(|s| - 1)
    ensures s[|s| - 1] != 0
  {
    EvalTake(s, |s| - 1);
    assert s[..|s|] == s;
    EvalBound(s[..|s| - 1]);
  }

  lemma {:induction false} EvalZero(s: seq<Bigit>)
    requires forall k :: 0 <= k < |s| ==> s[k] == 0
    ensures Eval(s) == 0
    decreases |s|
  {
    if s != [] {
      EvalZero(s[1..]);
    }
  }

  // ----- Digits by absolute position -----

  /** The digit at an absolute position, zero outside what is stored. */
  function Digit(s: seq<Bigit>, exp: nat, i: nat): Bigit {
    if exp <= i < exp + |s| then s[i - exp] else 0
  }

  /** The part of the number from position `i` up, as a number of its own. */
  function High(s: seq<Bigit>, exp: nat, i: nat): nat {
    if i >= exp + |s| then 0
    else if i >= exp then Eval(s[i - exp..])
    else Eval(s) * BasePow(exp - i)
  }

  /** The part below position `i`. */
  function Low(s: seq<Bigit>, exp: nat, i: nat): nat {
    if i >= exp + |s| then Value(s, exp)
    else if i >= exp then Eval(s[..i - exp]) * BasePow(exp)
    else 0
  }

  lemma HighStep(s: seq<Bigit>, exp: nat, i: nat)
    ensures High(s, exp, i) == Digit(s, exp, i) + BASE * High(s, exp, i + 1)
  {
    if i + 1 <= exp {
      assert BasePow(exp - i) == BASE * BasePow(exp - i - 1);
      assert Eval(s) * (BASE * BasePow(exp - i - 1)) == BASE * (Eval(s) * BasePow(exp - i - 1));
      if i + 1 == exp && |s| > 0 {
        assert s[0..] == s;
      }
    } else if i < exp + |s| {
      assert s[i - exp..][1..] == s[i - exp + 1..];
    }
  }

  lemma LowBound(s: seq<Bigit>, exp: nat, i: nat)
    ensures Low(s, exp, i) < BasePow(i)
  {
    if i >= exp {
      var part := if i >= exp + |s| then s else s[..i - exp];
      EvalBound(part);
      PowAdd(BASE, |part|, exp);
      MulLe(Eval(part) + 1, BasePow(|part|), BasePow(exp), BasePow(exp));
      Distribute(Eval(part), 1, BasePow(exp));
      PowGrows(BASE, |part| + exp, i);
    }
  }

  lemma HighLow(s: seq<Bigit>, exp: nat, i: nat)
    ensures Value(s, exp) == High(s, exp, i) * BasePow(i) + Low(s, exp, i)
  {
    if i >= exp + |s| {
    } else if i >= exp {
      var k := i - exp;
      assert s == s[..k] + s[k..];
      EvalConcat(s[..k], s[k..]);
      PowAdd(BASE, k, exp);
      SplitProduct(Eval(s[..k]), Eval(s[k..]), BasePow(k), BasePow(exp));
    } else {
      PowAdd(BASE, exp - i, i);
      SplitProduct(0, Eval(s), BasePow(exp - i), BasePow(i));
    }
  }

  lemma SplitProduct(a: int, b: int, p: int, q: int)
    ensures (a + p * b) * q == b * (p * q) + a * q
  {
    Distribute(a, p * b, q);
    assert (p * b) * q == b * (p * q);
  }

  /** Stored digits bound the value from above, a non-zero top digit from below. */
  lemma ValueBounds(s: seq<Bigit>, exp: nat)
    ensures Value(s, exp) < BasePow(exp + |s|)
    ensures s != [] && s[|s| - 1] != 0 ==> Value(s, exp) >= BasePow(exp + |s| - 1)
  {
    LowBound(s, exp, exp + |s|);
    if s != [] && s[|s| - 1] != 0 {
      EvalTop(s);
      PowAdd(BASE, |s| - 1, exp);
      MulLe(BasePow(|s| - 1), Eval(s), BasePow(exp), BasePow(exp));
    }
  }
}
