/** Decimal digit strings and what they stand for. */
module DecimalDigits {
  import opened Powers

  function DigitOf(c: char): int {
    c as int - '0' as int
  }

  function CharOf(d: nat): char
    requires d <= 10
  {
    ('0' as int + d) as char
  }

  predicate IsDigit(c: char) {
    '0' <= c <= '9'
  }

  /** What a digit string stands for; a character past '9' counts for its distance from '0'. */
  function DigitsValue(s: seq<char>): int {
    if s == [] then 0 else 10 * DigitsValue(s[..|s| - 1]) + DigitOf(s[|s| - 1])
  }

  lemma {:induction false} DigitUpdate(s: seq<char>, i: nat, c: char)
    requires i < |s|
    ensures DigitsValue(s[i := c]) == DigitsValue(s) + (DigitOf(c) - DigitOf(s[i])) * Pow(10, |s| - 1 - i)
    decreases |s|
  {
    var n := |s| - 1;
    if i < n {
      assert s[i := c][..n] == s[..n][i := c];
      DigitUpdate(s[..n], i, c);
      var delta, p := DigitOf(c) - DigitOf(s[i]), Pow(10, n - 1 - i);
      assert 10 * (delta * p) == delta * (10 * p);
    } else {
      assert s[i := c][..n] == s[..n];
      assert Pow(10, 0) == 1;
    }
  }

  /** A first digit followed by zeros. */
  lemma {:induction false} RoundNumber(s: seq<char>)
    requires s != [] && forall k :: 0 < k < |s| ==> s[k] == '0'
    ensures DigitsValue(s) == DigitOf(s[0]) * Pow(10, |s| - 1)
    decreases |s|
  {
    var n := |s| - 1;
    if n > 0 {
      RoundNumber(s[..n]);
      assert 10 * (DigitOf(s[0]) * Pow(10, n - 1)) == DigitOf(s[0]) * (10 * Pow(10, n - 1));
    } else {
      assert s[..0] == [];
    }
  }

  lemma {:induction false} DigitsPositive(s: seq<char>)
    requires s != [] && s[0] != '0' && forall k :: 0 <= k < |s| ==> IsDigit(s[k])
    ensures DigitsValue(s) >= Pow(10, |s| - 1)
    decreases |s|
  {
    if |s| > 1 {
      DigitsPositive(s[..|s| - 1]);
    } else {
      assert s[..0] == [];
    }
  }

  lemma {:induction false} DigitsBelow(s: seq<char>)
    requires forall k :: 0 <= k < |s| ==> IsDigit(s[k])
    ensures 0 <= DigitsValue(s) < Pow(10, |s|)
    decreases |s|
  {
    if s != [] {
      DigitsBelow(s[..|s| - 1]);
    }
  }

  lemma {:induction false} SameDigitStrings(a: seq<char>, b: seq<char>)
    requires |a| == |b| && DigitsValue(a) == DigitsValue(b)
    requires forall k :: 0 <= k < |a| ==> IsDigit(a[k]) && IsDigit(b[k])
    ensures a == b
    decreases |a|
  {
    var n := |a| - 1;
    if n >= 0 {
      SameDigitStrings(a[..n], b[..n]);
      assert a == a[..n] + [a[n]] && b == b[..n] + [b[n]];
    }
  }

  lemma CarryOne(s: seq<char>, i: nat)
    requires 0 < i < |s| && s[i] == CharOf(10) && IsDigit(s[i - 1])
    ensures DigitsValue(s[i := '0'][i - 1 := (s[i - 1] as int + 1) as char]) == DigitsValue(s)
  {
    var t, c := s[i := '0'], (s[i - 1] as int + 1) as char;
    DigitUpdate(s, i, '0');
    DigitUpdate(t, i - 1, c);
    var down, up := DigitOf('0') - DigitOf(s[i]), DigitOf(c) - DigitOf(t[i - 1]);
    assert down == -10 && up == 1;
    CarryCancels(down, up, Pow(10, |s| - 1 - i));
    assert Pow(10, |s| - i) == 10 * Pow(10, |s| - 1 - i);
  }

  lemma CarryCancels(down: int, up: int, p: int)
    requires down == -10 && up == 1
    ensures down * p + up * (10 * p) == 0
  {
  }

  /** A fresh digit at the end. */
  lemma DigitAppend(s: seq<char>, c: char)
    ensures DigitsValue(s + [c]) == 10 * DigitsValue(s) + DigitOf(c)
  {
    assert (s + [c])[..|s|] == s;
  }

  /** Number of decimal digits; zero has one. */
  function CountDigits(n: nat): (count: nat)
    ensures count > 0
  {
    if n < 10 then 1 else 1 + CountDigits(n / 10)
  }

  lemma {:induction false} CountDigitsBounds(n: nat)
    ensures n < Pow(10, CountDigits(n))
    ensures n > 0 ==> Pow(10, CountDigits(n) - 1) <= n
    decreases n
  {
    assert Pow(10, 0) == 1;
    if n < 10 {
      assert Pow(10, 1) == 10;
    } else {
      CountDigitsBounds(n / 10);
    }
  }

  /** Only the number of digits lies between those powers of ten. */
  lemma CountDigitsUnique(n: nat, count: nat)
    requires n < Pow(10, count) && count > 0
    requires count == 1 || Pow(10, count - 1) <= n
    ensures CountDigits(n) == count
  {
    CountDigitsBounds(n);
    PowStrict(10, CountDigits(n) - 1, count);
    PowStrict(10, count - 1, CountDigits(n));
    if n == 0 {
      assert Pow(10, count - 1) > 0;
    }
  }

  /** power_of_10_64 of tools/unpacker/fmt/format-inl.h. */
  const POWER_OF_10_64: seq<nat> := [
    1,
    10,
    100,
    1000,
    10000,
    100000,
    1000000,
    10000000,
    100000000,
    1000000000,
    10000000000,
    100000000000,
    1000000000000,
    10000000000000,
    100000000000000,
    1000000000000000,
    10000000000000000,
    100000000000000000,
    1000000000000000000,
    10000000000000000000
  ]

  lemma {:induction false} PowerTable(i: nat)
    requires i < |POWER_OF_10_64|
    ensures POWER_OF_10_64[i] == Pow(10, i)
    decreases i
  {
    if i > 0 {
      PowerTable(i - 1);
      assert POWER_OF_10_64[i] == 10 * POWER_OF_10_64[i - 1];
    }
  }
}
