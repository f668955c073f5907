/** format_dragon of tools/unpacker/fmt/format-inl.h with a given number of digits: correct rounding. */
module FormatDragon {
  import opened Powers
  import opened Bigits
  import opened Bigints
  import opened DecimalDigits

  /** f * pow(2, e). */
  datatype Fp = Fp(f: nat, e: int)

  // ----- value / pow(10, x) as a fraction of naturals -----

  function Plus(x: int): nat {
    if x > 0 then x else 0
  }

  function Num(v: Fp, x: int): nat {
    v.f * Pow(2, Plus(v.e)) * Pow(10, Plus(-x))
  }

  function Den(v: Fp, x: int): (d: nat)
    ensures d > 0
  {
    MulPositive(Pow(2, Plus(-v.e)), Pow(10, Plus(x)));
    Pow(2, Plus(-v.e)) * Pow(10, Plus(x))
  }

  lemma MulPositive(a: nat, b: nat)
    requires a > 0 && b > 0
    ensures a * b > 0
  {
  }

  /** pow(10, x) <= value < pow(10, x + 1). */
  predicate HasExponent(v: Fp, x: int) {
    Den(v, x) <= Num(v, x) < 10 * Den(v, x)
  }

  /** q is num / den rounded to the nearest integer, ties to even. */
  predicate Rounds(num: int, den: int, q: int) {
    && -den <= 2 * (num - q * den) <= den
    && (2 * (num - q * den) == den || 2 * (num - q * den) == -den ==> q % 2 == 0)
  }

  lemma RoundsScaled(a: int, b: nat, c: int, d: nat, q: int)
    requires b > 0 && d > 0 && a * d == b * c && Rounds(a, b, q)
    ensures Rounds(c, d, q)
  {
    // b * (c - q * d) == d * (a - q * b)
    var x, y := 2 * (a - q * b), 2 * (c - q * d);
    assert b * y == d * x by {
      CrossDifference(a, b, c, d, q);
    }
    CrossBound(b, d, x, y);
    CrossBound(b, d, -x, -y);
  }

  lemma CrossDifference(a: int, b: int, c: int, d: int, q: int)
    requires a * d == b * c
    ensures b * (2 * (c - q * d)) == d * (2 * (a - q * b))
  {
    assert b * (c - q * d) == b * c - b * (q * d);
    assert d * (a - q * b) == d * a - d * (q * b);
    assert b * (q * d) == d * (q * b) by {
      MulAssoc(b, q, d);
      MulAssoc(d, q, b);
      assert b * q * d == d * q * b;
    }
  }

  /** x / b == y / d keeps comparisons with 1. */
  lemma CrossBound(b: nat, d: nat, x: int, y: int)
    requires b > 0 && d > 0 && b * y == d * x
    ensures (x <= b <==> y <= d) && (x >= b <==> y >= d)
  {
    CancelPow(d, y, b);
    CancelPow(b, x, d);
    CancelPow(y, d, b);
    CancelPow(x, b, d);
  }

  /** Moving the unit from pow(10, x) to pow(10, x - k) multiplies the fraction by pow(10, k). */
  lemma FinerUnit(v: Fp, x: int, k: nat)
    ensures Num(v, x) * Pow(10, k) * Den(v, x - k) == Den(v, x) * Num(v, x - k)
  {
    var a, b := v.f * Pow(2, Plus(v.e)), Pow(2, Plus(-v.e));
    var s, t, u, w, y := Pow(10, Plus(-x)), Pow(10, k), Pow(10, Plus(x - k)), Pow(10, Plus(x)), Pow(10, Plus(k - x));
    assert Num(v, x) == a * s && Den(v, x - k) == b * u && Den(v, x) == b * w;
    assert Num(v, x - k) == a * y by {
      assert -(x - k) == k - x;
    }
    assert s * t * u == w * y by {
      TensBalance(x, k);
    }
    Regroup4(a, s, t, b, u);
    Regroup2(b, w, a, y);
  }

  lemma TensBalance(x: int, k: nat)
    ensures Pow(10, Plus(-x)) * Pow(10, k) * Pow(10, Plus(x - k)) == Pow(10, Plus(x)) * Pow(10, Plus(k - x))
  {
    PowAdd(10, Plus(-x), k);
    PowAdd(10, Plus(-x) + k, Plus(x - k));
    PowAdd(10, Plus(x), Plus(k - x));
  }

  lemma Regroup4(a: int, s: int, t: int, b: int, u: int)
    ensures a * s * t * (b * u) == a * b * (s * t * u)
  {
    MulAssoc(a, s, t);
    MulAssoc(a, s * t, b * u);
    assert (s * t) * (b * u) == b * (s * t * u);
    MulAssoc(a, b, s * t * u);
  }

  lemma Regroup2(b: int, s: int, a: int, t: int)
    ensures b * s * (a * t) == a * b * (s * t)
  {
    MulAssoc(b, s, a * t);
    assert s * (a * t) == a * (s * t);
    MulAssoc(b, a, s * t);
  }

  lemma CoarserUnit(v: Fp, x: int)
    ensures Num(v, x) * Den(v, x + 1) == 10 * Den(v, x) * Num(v, x + 1)
  {
    FinerUnit(v, x + 1, 1);
    assert Pow(10, 1) == 10 * Pow(10, 0);
    assert Num(v, x + 1) * 10 * Den(v, x) == 10 * Den(v, x) * Num(v, x + 1);
  }

  // ----- Carrying -----

  /**
   * The last digit has been rounded up past '9': carry it. Leaves either the same number in proper
   * digits, or, if they were all nines, a one and zeros standing for a tenth of it.
   */
  method CarryNines(buf: array<char>) returns (allNines: bool)
    requires buf.Length > 0 && buf[buf.Length - 1] == CharOf(10)
    requires forall k :: 0 <= k < buf.Length - 1 ==> IsDigit(buf[k])
    modifies buf
    ensures forall k :: 0 <= k < buf.Length ==> IsDigit(buf[k])
    ensures DigitsValue(buf[..]) * (if allNines then 10 else 1) == old(DigitsValue(buf[..]))
    ensures allNines ==> DigitsValue(buf[..]) == Pow(10, buf.Length - 1)
    ensures old(buf[0]) != '0' ==> buf[0] != '0'
  {
    var i := buf.Length - 1;
    while i > 0 && buf[i] == CharOf(10)
      invariant 0 <= i < buf.Length
      invariant forall k :: 0 <= k < i ==> IsDigit(buf[k]) && buf[k] == old(buf[k])
      invariant forall k :: i < k < buf.Length ==> buf[k] == '0'
      invariant '0' <= buf[i] <= CharOf(10)
      invariant i < buf.Length - 1 ==> buf[i] == (old(buf[i]) as int + 1) as char
      invariant DigitsValue(buf[..]) == old(DigitsValue(buf[..]))
    {
      ghost var s := buf[..];
      CarryOne(s, i);
      buf[i] := '0';
      buf[i - 1] := (buf[i - 1] as int + 1) as char;
      assert buf[..] == s[i := '0'][i - 1 := (s[i - 1] as int + 1) as char];
      i := i - 1;
    }
    allNines := buf[0] == CharOf(10);
    if allNines {
      RoundNumber(buf[..]);
      buf[0] := '1';
      RoundNumber(buf[..]);
    }
  }

  // ----- Setting up numerator and denominator -----

  const MAX_SIGNIFICAND := 0x4000_0000_0000_0000 // two more bits still fit 64

  predicate InRange(v: Fp, exp10: int) {
    && 0 < v.f < MAX_SIGNIFICAND
    && -MAX_POW10 < exp10 < MAX_POW10
    && HasExponent(v, exp10)
  }

  /** A value of at least 1 has no negative exponent. */
  lemma IntegersHaveExponent(v: Fp, x: int)
    requires v.f > 0 && v.e >= 0 && x < 0
    ensures !HasExponent(v, x)
  {
    var t := Pow(10, Plus(-x) - 1);
    MulPositive(v.f, Pow(2, v.e));
    MulPositive(v.f * Pow(2, v.e), t);
    assert Num(v, x) == 10 * (v.f * Pow(2, v.e) * t);
    assert Den(v, x) == 1;
  }

  /** What the bigints have to be: the fraction, times a common factor, comparable from the start. */
  ghost predicate SetUpFor(v: Fp, shift: nat, x: int, numerator: Bigint, denominator: Bigint)
    reads numerator, denominator
  {
    && numerator != denominator && numerator.Normal() && denominator.Normal()
    && numerator.V() == Num(v, x) * Pow(2, shift) && denominator.V() == Den(v, x) * Pow(2, shift)
    && (numerator.V() == denominator.V() ==> |numerator.bigits| >= |denominator.bigits|)
  }

  method SetUp(v: Fp, shift: nat, exp10: int) returns (numerator: Bigint, denominator: Bigint)
    requires InRange(v, exp10) && 1 <= shift <= 2
    ensures fresh(numerator) && fresh(denominator)
    ensures SetUpFor(v, shift, exp10, numerator, denominator)
  {
    numerator := new Bigint();
    denominator := new Bigint();
    SignificandFits(v.f, shift);
    var significand := v.f * Pow(2, shift);
    if v.e >= 0 {
      if exp10 < 0 {
        IntegersHaveExponent(v, exp10);
        assert false;
      }
      SetUpInteger(v, shift, exp10, significand, numerator, denominator);
    } else if exp10 < 0 {
      SetUpFraction(v, shift, exp10, significand, numerator, denominator);
    } else {
      SetUpMixed(v, shift, exp10, significand, numerator, denominator);
    }
  }

  method SetUpInteger(v: Fp, shift: nat, x: nat, significand: nat, numerator: Bigint, denominator: Bigint)
    requires numerator != denominator
    requires 0 < v.f < MAX_SIGNIFICAND && v.e >= 0 && x < MAX_POW10 && 1 <= shift <= 2
    requires 0 < significand < U64 && significand == v.f * Pow(2, shift)
    modifies numerator, denominator
    ensures SetUpFor(v, shift, x, numerator, denominator)
  {
    numerator.AssignInt(significand);
    numerator.ShiftLeft(v.e);
    denominator.AssignPow10(x);
    denominator.ShiftLeft(shift);
    IntegerFactors(v, shift, x);
    IntegerTie(v, x, shift, numerator, denominator);
  }

  lemma IntegerFactors(v: Fp, shift: nat, x: nat)
    requires v.e >= 0
    ensures v.f * Pow(2, shift) * Pow(2, v.e) == Num(v, x) * Pow(2, shift)
    ensures Pow(10, x) * Pow(2, shift) == Den(v, x) * Pow(2, shift)
  {
    assert Num(v, x) == v.f * Pow(2, v.e) * 1 && Den(v, x) == 1 * Pow(10, x);
    MulSwap(v.f, Pow(2, shift), Pow(2, v.e));
  }

  method SetUpFraction(v: Fp, shift: nat, x: int, significand: nat, numerator: Bigint, denominator: Bigint)
    requires numerator != denominator
    requires v.f > 0 && v.e < 0 && -MAX_POW10 < x < 0
    requires 0 < significand < U64 && significand == v.f * Pow(2, shift)
    modifies numerator, denominator
    ensures SetUpFor(v, shift, x, numerator, denominator)
  {
    numerator.AssignPow10(-x);
    numerator.MultiplyWide(significand);
    denominator.AssignInt(1);
    denominator.ShiftLeft(shift - v.e);
    FractionFactors(v, shift, x);
    NoTie(v, x, shift);
  }

  lemma FractionFactors(v: Fp, shift: nat, x: int)
    requires v.e < 0 && x < 0
    ensures Pow(10, -x) * (v.f * Pow(2, shift)) == Num(v, x) * Pow(2, shift)
    ensures 1 * Pow(2, shift - v.e) == Den(v, x) * Pow(2, shift)
  {
    assert Num(v, x) == v.f * 1 * Pow(10, -x) && Den(v, x) == Pow(2, -v.e) * 1;
    PowAdd(2, -v.e, shift);
    MulAssoc(Pow(10, -x), v.f, Pow(2, shift));
  }

  method SetUpMixed(v: Fp, shift: nat, x: nat, significand: nat, numerator: Bigint, denominator: Bigint)
    requires numerator != denominator
    requires v.f > 0 && v.e < 0 && x < MAX_POW10
    requires 0 < significand < U64 && significand == v.f * Pow(2, shift)
    modifies numerator, denominator
    ensures SetUpFor(v, shift, x, numerator, denominator)
  {
    numerator.AssignInt(significand);
    denominator.AssignPow10(x);
    denominator.ShiftLeft(shift - v.e);
    MixedFactors(v, shift, x);
    LowExponentTie(numerator, denominator);
  }

  lemma MixedFactors(v: Fp, shift: nat, x: nat)
    requires v.e < 0
    ensures v.f * Pow(2, shift) == Num(v, x) * Pow(2, shift)
    ensures Pow(10, x) * Pow(2, shift - v.e) == Den(v, x) * Pow(2, shift)
  {
    assert Num(v, x) == v.f * 1 * 1 && Den(v, x) == Pow(2, -v.e) * Pow(10, x);
    PowAdd(2, -v.e, shift);
    MulAssoc(Pow(10, x), Pow(2, -v.e), Pow(2, shift));
  }

  lemma SignificandFits(f: nat, shift: nat)
    requires 0 < f < MAX_SIGNIFICAND && 1 <= shift <= 2
    ensures 0 < f * Pow(2, shift) < U64
  {
    assert Pow(2, 1) == 2 * Pow(2, 0) && Pow(2, 2) == 2 * Pow(2, 1);
  }

  lemma LowExponentTie(a: Bigint, b: Bigint)
    requires a.Normal() && b.Normal() && a.exp <= b.exp
    ensures a.V() == b.V() ==> |a.bigits| >= |b.bigits|
  {
    if a.V() == b.V() {
      SameLength(a.bigits, a.exp, b.bigits, b.exp);
    }
  }

  lemma {:induction false} Pow5IsOdd(x: nat)
    ensures Pow(5, x) % 2 == 1
    decreases x
  {
    if x > 0 {
      Pow5IsOdd(x - 1);
    }
  }

  /**
   * Integers: if the value is exactly pow(10, x) with a 62-bit significand then x <= 26 and e <= x,
   * so both bigints have exponent 0.
   */
  lemma IntegerTie(v: Fp, x: int, shift: nat, numerator: Bigint, denominator: Bigint)
    requires 0 < v.f < MAX_SIGNIFICAND && v.e >= 0 && x >= 0 && 1 <= shift <= 2
    requires numerator.Normal() && denominator.Normal()
    requires numerator.V() == Num(v, x) * Pow(2, shift) && denominator.V() == Den(v, x) * Pow(2, shift)
    requires numerator.exp == v.e / 32
    ensures numerator.V() == denominator.V() ==> |numerator.bigits| >= |denominator.bigits|
  {
    if numerator.V() == denominator.V() {
      SameFactor(Num(v, x), Den(v, x), Pow(2, shift));
      assert Pow(2, 0) == 1 && Pow(10, 0) == 1;
      assert v.f * Pow(2, v.e) == Pow(10, x);
      ExactPower(v.f, v.e, x);
      LowExponentTie(numerator, denominator);
    }
  }

  lemma SameFactor(a: int, b: int, p: nat)
    requires p > 0 && a * p == b * p
    ensures a == b
  {
    CancelPow(a, b, p);
    CancelPow(b, a, p);
  }

  lemma ExactPower(f: nat, e: nat, x: nat)
    requires 0 < f < MAX_SIGNIFICAND && f * Pow(2, e) == Pow(10, x)
    ensures e <= x <= 26
  {
    PowOfProduct(5, 2, x);
    if e > x {
      MoreTwos(f, e, x);
    } else {
      FewerTwos(f, e, x);
      if x > 26 {
        PowGrows(5, 27, x);
        Pow5At27();
      }
    }
  }

  lemma MoreTwos(f: nat, e: nat, x: nat)
    requires e > x
    ensures f * Pow(2, e) != Pow(5, x) * Pow(2, x)
  {
    var rest := f * Pow(2, e - x - 1);
    TwiceAsMuch(f, Pow(2, e - x - 1), Pow(2, x));
    PowAdd(2, e - x, x);
    assert f * Pow(2, e) == 2 * rest * Pow(2, x);
    Pow5IsOdd(x);
    if 2 * rest * Pow(2, x) == Pow(5, x) * Pow(2, x) {
      SameFactor(2 * rest, Pow(5, x), Pow(2, x));
    }
  }

  lemma TwiceAsMuch(f: int, r: int, p: int)
    ensures f * (2 * r * p) == 2 * (f * r) * p
  {
    MulAssoc(f, 2 * r, p);
    assert f * (2 * r) == 2 * (f * r);
  }

  lemma FewerTwos(f: nat, e: nat, x: nat)
    requires e <= x && f * Pow(2, e) == Pow(5, x) * Pow(2, x)
    ensures f >= Pow(5, x)
  {
    PowAdd(2, x - e, e);
    MulAssoc(Pow(5, x), Pow(2, x - e), Pow(2, e));
    SameFactor(f, Pow(5, x) * Pow(2, x - e), Pow(2, e));
    AtLeastAsMuch(Pow(5, x), Pow(2, x - e));
  }

  lemma Pow5At27()
    ensures Pow(5, 27) > MAX_SIGNIFICAND
  {
    PowAdd(5, 9, 9);
    PowAdd(5, 18, 9);
    assert Pow(5, 9) == 1953125;
  }

  /** A fraction below 1 is never exactly a power of ten: five does not divide a power of two. */
  lemma NoTie(v: Fp, x: int, shift: nat)
    requires v.f > 0 && v.e < 0 && x < 0
    ensures Num(v, x) * Pow(2, shift) != Den(v, x) * Pow(2, shift)
  {
    Pow2NotFives(-v.e);
    var t := Pow(10, -x - 1);
    assert Num(v, x) == v.f * 1 * (10 * t) && Den(v, x) == Pow(2, -v.e) * 1;
    NotFives(v.f, t, Pow(2, -v.e), Pow(2, shift));
  }

  lemma NotFives(f: nat, t: nat, d: nat, p: nat)
    requires d % 5 != 0 && p > 0
    ensures f * 1 * (10 * t) * p != d * 1 * p
  {
    MulSwap(f, 10, t);
    MulAssoc(f, 10, t);
    if f * 1 * (10 * t) * p == d * 1 * p {
      SameFactor(f * (10 * t), d, p);
      DivModUnique(d, 5, 2 * (f * t), 0);
    }
  }

  // ----- The digits -----

  /** After i digits: what they stand for, and what is left of the value in the numerator. */
  ghost predicate Generated(n0: nat, d: nat, i: nat, digits: int, n: nat) {
    n0 * Pow(10, i) == 10 * digits * d + n && n < 10 * d
  }

  lemma NextDigit(n0: nat, d: nat, i: nat, digits: int, n: nat, digit: nat, r: nat)
    requires Generated(n0, d, i, digits, n) && n == digit * d + r && r < d
    ensures digit <= 9
    ensures n0 * Pow(10, i) == (10 * digits + digit) * d + r
    ensures Generated(n0, d, i + 1, 10 * digits + digit, 10 * r)
  {
    if digit >= 10 {
      MulLe(10, digit, d, d);
    }
    Distribute(10 * digits, digit, d);
    var all := (10 * digits + digit) * d;
    assert n0 * (10 * Pow(10, i)) == 10 * (n0 * Pow(10, i));
    assert 10 * (10 * digits + digit) * d == 10 * all by {
      MulAssoc(10, 10 * digits + digit, d);
    }
  }

  /** Fewer than ten denominators: at most one more digit position, as `DivmodAssign` needs. */
  lemma TenfoldFits(a: seq<Bigit>, ea: nat, b: seq<Bigit>, eb: nat)
    requires a != [] && b != [] && Top(b) != 0 && Value(a, ea) < 10 * Value(b, eb)
    requires Top(a) != 0 || (|a| == 1 && ea <= eb)
    ensures |a| + ea <= |b| + eb + 1
  {
    ValueBounds(a, ea);
    ValueBounds(b, eb);
    BasePowStep(|b| + eb);
    if Top(a) != 0 && |a| + ea > |b| + eb + 1 {
      PowGrows(BASE, |b| + eb + 1, |a| + ea - 1);
    }
  }

  /** The numerator between two digits. */
  ghost predicate Ready(numerator: Bigint, denominator: Bigint)
    reads numerator, denominator
  {
    && numerator != denominator && numerator.Comparable(denominator)
    && numerator.V() < 10 * denominator.V()
    && !Padded(denominator.bigits, denominator.exp, numerator.bigits, numerator.exp)
    && (numerator.exp <= denominator.exp || (numerator.Normal() && numerator.V() >= denominator.V()))
  }

  lemma SetUpIsReady(v: Fp, shift: nat, x: int, numerator: Bigint, denominator: Bigint)
    requires SetUpFor(v, shift, x, numerator, denominator)
    requires denominator.V() <= numerator.V() < 10 * denominator.V()
    ensures Ready(numerator, denominator)
  {
    TieBroken(numerator.bigits, numerator.exp, denominator.bigits, denominator.exp);
  }

  /** One digit: the quotient; the remainder, now less than the denominator, stays. */
  method TakeDigit(numerator: Bigint, denominator: Bigint) returns (digit: nat)
    requires Ready(numerator, denominator)
    modifies numerator
    ensures old(numerator.V()) == digit * denominator.V() + numerator.V() && numerator.V() < denominator.V()
    ensures numerator.Tidy() && numerator.exp <= denominator.exp && denominator.Normal()
    ensures old(numerator.V()) >= denominator.V() ==> digit > 0
  {
    TenfoldFits(numerator.bigits, numerator.exp, denominator.bigits, denominator.exp);
    digit := numerator.DivmodAssign(denominator);
    if digit == 0 {
      assert 0 * denominator.V() == 0;
    }
  }

  method Tenfold(numerator: Bigint, denominator: Bigint)
    requires numerator != denominator && numerator.Tidy() && denominator.Normal()
    requires numerator.exp <= denominator.exp && numerator.V() < denominator.V()
    modifies numerator`bigits
    ensures Ready(numerator, denominator) && numerator.V() == 10 * old(numerator.V())
  {
    numerator.Multiply(10);
    AlignedComparable(numerator.bigits, numerator.exp, denominator.bigits, denominator.exp);
  }

  /** Twice the remainder against the denominator. */
  method CompareTwice(numerator: Bigint, denominator: Bigint) returns (r: int)
    requires numerator.Tidy() && denominator.Normal() && numerator.exp <= denominator.exp
    ensures r == Sign(2 * numerator.V() - denominator.V())
  {
    r := Bigint.AddCompare(numerator, numerator, denominator);
  }

  /** All digits but the last one. */
  method LeadingDigits(numerator: Bigint, denominator: Bigint, buf: array<char>)
    requires Ready(numerator, denominator) && buf.Length > 0 && numerator.V() >= denominator.V()
    modifies numerator, buf
    ensures Ready(numerator, denominator)
    ensures buf.Length == 1 ==> numerator.V() == old(numerator.V())
    ensures forall k :: 0 <= k < buf.Length - 1 ==> IsDigit(buf[k])
    ensures buf.Length > 1 ==> buf[0] != '0'
    ensures Generated(old(numerator.V()), denominator.V(), buf.Length - 1,
                      DigitsValue(buf[..buf.Length - 1]), numerator.V())
  {
    ghost var n0, total := numerator.V(), 0;
    assert Pow(10, 0) == 1;
    var i := 0;
    while i < buf.Length - 1
      invariant 0 <= i <= buf.Length - 1
      invariant Ready(numerator, denominator)
      invariant i == 0 ==> numerator.V() == n0
      invariant forall k :: 0 <= k < i ==> IsDigit(buf[k])
      invariant i > 0 ==> buf[0] != '0'
      invariant total == DigitsValue(buf[..i]) && Generated(n0, denominator.V(), i, total, numerator.V())
    {
      var digit := OneMoreDigit(numerator, denominator, n0, i, total);
      StoreDigit(buf, i, digit);
      total := 10 * total + digit;
      i := i + 1;
    }
  }

  method StoreDigit(buf: array<char>, i: nat, digit: nat)
    requires i < buf.Length && digit <= 9
    modifies buf
    ensures buf[i] == CharOf(digit) && forall k :: 0 <= k < i ==> buf[k] == old(buf[k])
    ensures DigitsValue(buf[..i + 1]) == 10 * old(DigitsValue(buf[..i])) + digit
  {
    ghost var digits := buf[..i];
    buf[i] := CharOf(digit);
    assert buf[..i + 1] == digits + [CharOf(digit)];
    DigitAppend(digits, CharOf(digit));
  }

  method OneMoreDigit(numerator: Bigint, denominator: Bigint, ghost n0: nat, ghost i: nat, ghost digits: int)
    returns (digit: nat)
    requires Ready(numerator, denominator) && Generated(n0, denominator.V(), i, digits, numerator.V())
    requires i == 0 ==> numerator.V() >= denominator.V()
    modifies numerator
    ensures Ready(numerator, denominator) && digit <= 9 && (i == 0 ==> digit > 0)
    ensures Generated(n0, denominator.V(), i + 1, 10 * digits + digit, numerator.V())
  {
    ghost var n := numerator.V();
    digit := TakeDigit(numerator, denominator);
    NextDigit(n0, denominator.V(), i, digits, n, digit, numerator.V());
    Tenfold(numerator, denominator);
  }

  /** The result of formatting: digits, a proper first one, and the value rounded at the last one's place. */
  ghost predicate Rounded(v: Fp, digits: seq<char>, place: int, exp: int) {
    && (forall k :: 0 <= k < |digits| ==> IsDigit(digits[k]))
    && place <= exp <= place + 1
    && Rounds(Num(v, place), Den(v, place), DigitsValue(digits) * Pow(10, exp - place))
  }

  /** Half up, ties to even, by the last digit's parity. */
  lemma HalfEven(n: int, d: nat, whole: int, digit: nat, r: nat)
    requires n == whole * d + r && r < d && whole % 2 == digit % 2
    ensures var up := 2 * r > d || (2 * r == d && digit % 2 != 0);
      Rounds(n, d, if up then whole + 1 else whole)
  {
    Distribute(whole, 1, d);
  }

  lemma SameParity(digits: int, digit: nat)
    ensures (10 * digits + digit) % 2 == digit % 2
  {
    DivModUnique(10 * digits + digit, 2, 5 * digits + digit / 2, digit % 2);
  }

  lemma RoundedDigit(n0: nat, d: nat, i: nat, digits: int, n: nat, digit: nat, r: nat)
    requires Generated(n0, d, i, digits, n) && n == digit * d + r && r < d
    ensures digit <= 9
    ensures var up := 2 * r > d || (2 * r == d && digit % 2 != 0);
      Rounds(n0 * Pow(10, i), d, 10 * digits + digit + if up then 1 else 0)
  {
    NextDigit(n0, d, i, digits, n, digit, r);
    var whole := 10 * digits + digit;
    SameParity(digits, digit);
    assert n0 * Pow(10, i) == whole * d + r by {
      MulAssoc(10, digits, d);
      Distribute(10 * digits, digit, d);
    }
    HalfEven(n0 * Pow(10, i), d, whole, digit, r);
  }

  /** From the scaled fraction of the bigints back to the value's own. */
  lemma AtPlace(v: Fp, x: int, shift: nat, k: nat, q: int)
    requires Rounds(Num(v, x) * Pow(2, shift) * Pow(10, k), Den(v, x) * Pow(2, shift), q)
    ensures Rounds(Num(v, x - k), Den(v, x - k), q)
  {
    var n, d, p, t := Num(v, x), Den(v, x), Pow(2, shift), Pow(10, k);
    FinerUnit(v, x, k);
    MulPositive(d, p);
    assert n * p * t * Den(v, x - k) == d * p * Num(v, x - k) by {
      CommonFactor(n, p, t, Den(v, x - k));
      CommonFactor(d, p, 1, Num(v, x - k));
    }
    RoundsScaled(n * p * t, d * p, Num(v, x - k), Den(v, x - k), q);
  }

  lemma CommonFactor(n: int, p: int, t: int, u: int)
    ensures n * p * t * u == n * t * u * p
  {
    MulSwap(n, p, t);
    MulSwap(n * t, p, u);
  }

  lemma AtCoarserPlace(v: Fp, x: int, shift: nat, q: int)
    requires Rounds(Num(v, x) * Pow(2, shift), Den(v, x) * Pow(2, shift) * 10, q)
    ensures Rounds(Num(v, x + 1), Den(v, x + 1), q)
  {
    var n, d, p := Num(v, x), Den(v, x), Pow(2, shift);
    CoarserUnit(v, x);
    MulPositive(d, p);
    assert n * p * Den(v, x + 1) == d * p * 10 * Num(v, x + 1) by {
      CommonFactor(n, p, Den(v, x + 1), 1);
      CommonFactor(d, p, 10, Num(v, x + 1));
      MulSwap(10, d, Num(v, x + 1));
      MulSwap(d, 10, Num(v, x + 1));
    }
    RoundsScaled(n * p, d * p * 10, Num(v, x + 1), Den(v, x + 1), q);
  }

  /** Stores the last digit, one higher if rounding says so, and carries where that makes ten. */
  method StoreLast(buf: array<char>, digit: nat, up: bool) returns (carried: bool)
    requires buf.Length > 0 && digit <= 9
    requires forall k :: 0 <= k < buf.Length - 1 ==> IsDigit(buf[k])
    requires if buf.Length > 1 then buf[0] != '0' else digit > 0
    modifies buf
    ensures forall k :: 0 <= k < buf.Length ==> IsDigit(buf[k])
    ensures buf[0] != '0'
    ensures carried ==> DigitsValue(buf[..]) == Pow(10, buf.Length - 1)
    ensures DigitsValue(buf[..]) * (if carried then 10 else 1)
         == 10 * old(DigitsValue(buf[..buf.Length - 1])) + digit + (if up then 1 else 0)
  {
    var last := buf.Length - 1;
    ghost var front := buf[..last];
    var c := CharOf(if up then digit + 1 else digit);
    buf[last] := c;
    assert buf[..] == front + [c] && buf[..][..last] == front;
    carried := false;
    if up && digit == 9 {
      carried := CarryNines(buf);
    }
  }

  /** Last digit and rounding. */
  method LastDigit(numerator: Bigint, denominator: Bigint, buf: array<char>, ghost n0: nat) returns (carried: bool)
    requires Ready(numerator, denominator) && buf.Length > 0
    requires forall k :: 0 <= k < buf.Length - 1 ==> IsDigit(buf[k])
    requires if buf.Length > 1 then buf[0] != '0' else numerator.V() >= denominator.V()
    requires Generated(n0, denominator.V(), buf.Length - 1, DigitsValue(buf[..buf.Length - 1]), numerator.V())
    modifies numerator, buf
    ensures forall k :: 0 <= k < buf.Length ==> IsDigit(buf[k])
    ensures buf[0] != '0'
    ensures carried ==> DigitsValue(buf[..]) == Pow(10, buf.Length - 1)
    ensures Rounds(n0 * Pow(10, buf.Length - 1), denominator.V(), DigitsValue(buf[..]) * (if carried then 10 else 1))
  {
    ghost var n, front := numerator.V(), buf[..buf.Length - 1];
    var digit := TakeDigit(numerator, denominator);
    ghost var r, d := numerator.V(), denominator.V();
    var result := CompareTwice(numerator, denominator);
    var up := result > 0 || (result == 0 && digit % 2 != 0);
    RoundedDigit(n0, d, buf.Length - 1, DigitsValue(front), n, digit, r);
    assert buf[..buf.Length - 1] == front;
    carried := StoreLast(buf, digit, up);
  }

  /**
   * What is asked of a number of digits: all of them there, no zero in front, the value rounded at
   * the place they end at. Only where rounding has made a one and zeros of nines is `exp`, the place
   * left to the caller, one higher. Without digits a single one stands for the next power of ten.
   */
  ghost predicate Answer(v: Fp, numDigits: nat, exp10: int, digits: seq<char>, exp: int) {
    var place := exp10 - numDigits + 1;
    && |digits| == (if numDigits == 0 then 1 else numDigits)
    && Rounded(v, digits, place, exp)
    && (exp > place ==> numDigits > 0 && DigitsValue(digits) == Pow(10, numDigits - 1))
    && (numDigits > 0 ==> digits[0] != '0')
  }

  /** At most one number is the value rounded. */
  lemma RoundsUnique(num: int, den: nat, p: int, q: int)
    requires den > 0 && Rounds(num, den, p) && Rounds(num, den, q)
    ensures p == q
  {
    if p < q {
      HigherRounds(num, den, p, q);
    } else if q < p {
      HigherRounds(num, den, q, p);
    }
  }

  lemma HigherRounds(num: int, den: nat, p: int, q: int)
    requires den > 0 && p < q && Rounds(num, den, p)
    ensures !Rounds(num, den, q)
  {
    Distribute(p, q - p, den);
    AtLeastOnce(q - p, den);
    if q - p > 1 {
      AtLeastOnce(q - p - 1, den);
      Distribute(q - p - 1, 1, den);
    }
  }

  /** The rounded value tells whether nines have been carried. */
  lemma AnswerNumber(v: Fp, numDigits: nat, exp10: int, digits: seq<char>, exp: int, q: int)
    requires Answer(v, numDigits, exp10, digits, exp)
    requires q == DigitsValue(digits) * Pow(10, exp - (exp10 - numDigits + 1))
    ensures var carried := numDigits > 0 && q == Pow(10, numDigits);
      && exp == exp10 - numDigits + (if carried then 2 else 1)
      && DigitsValue(digits) == if carried then Pow(10, numDigits - 1) else q
  {
    assert Pow(10, 0) == 1 && Pow(10, 1) == 10;
    DigitsBelow(digits);
  }

  /** A value asked for to a number of digits has one answer. */
  lemma AnswerUnique(v: Fp, numDigits: nat, exp10: int, a: seq<char>, ea: int, b: seq<char>, eb: int)
    requires Answer(v, numDigits, exp10, a, ea) && Answer(v, numDigits, exp10, b, eb)
    ensures a == b && ea == eb
  {
    var place := exp10 - numDigits + 1;
    var p, q := DigitsValue(a) * Pow(10, ea - place), DigitsValue(b) * Pow(10, eb - place);
    RoundsUnique(Num(v, place), Den(v, place), p, q);
    AnswerNumber(v, numDigits, exp10, a, ea, p);
    AnswerNumber(v, numDigits, exp10, b, eb, q);
    SameDigitStrings(a, b);
  }

  /** The answer, for any value and any number of digits. */
  method FormatDragon(v: Fp, isPredecessorCloser: bool, numDigits: nat, exp10: int) returns (buf: array<char>, exp: int)
    requires InRange(v, exp10)
    ensures fresh(buf) && Answer(v, numDigits, exp10, buf[..], exp)
  {
    var shift := if isPredecessorCloser then 2 else 1;
    var numerator, denominator := SetUp(v, shift, exp10);
    AtLeastOne(v, exp10, shift);
    exp := exp10 - (numDigits - 1);
    if numDigits == 0 {
      buf := NoDigits(v, shift, exp10, numerator, denominator);
      return;
    }
    buf := new char[numDigits];
    ghost var n0 := numerator.V();
    SetUpIsReady(v, shift, exp10, numerator, denominator);
    LeadingDigits(numerator, denominator, buf);
    var carried := LastDigit(numerator, denominator, buf, n0);
    if carried {
      exp := exp + 1;
    }
    AtPlace(v, exp10, shift, numDigits - 1, DigitsValue(buf[..]) * (if carried then 10 else 1));
    CarriedAnswer(v, numDigits, exp10, buf[..], carried);
  }

  lemma CarriedAnswer(v: Fp, numDigits: nat, exp10: int, digits: seq<char>, carried: bool)
    requires |digits| == numDigits > 0 && digits[0] != '0' && forall k :: 0 <= k < |digits| ==> IsDigit(digits[k])
    requires carried ==> DigitsValue(digits) == Pow(10, numDigits - 1)
    requires var place := exp10 - (numDigits - 1);
      Rounds(Num(v, place), Den(v, place), DigitsValue(digits) * (if carried then 10 else 1))
    ensures Answer(v, numDigits, exp10, digits, exp10 - (numDigits - 1) + (if carried then 1 else 0))
  {
    assert Pow(10, 0) == 1 && Pow(10, 1) == 10;
  }

  lemma AtLeastOne(v: Fp, x: int, shift: nat)
    requires HasExponent(v, x)
    ensures Den(v, x) * Pow(2, shift) <= Num(v, x) * Pow(2, shift) < 10 * (Den(v, x) * Pow(2, shift))
  {
    CancelPow(Num(v, x), Den(v, x), Pow(2, shift));
    CancelPow(Num(v, x), 10 * Den(v, x), Pow(2, shift));
    MulAssoc(10, Den(v, x), Pow(2, shift));
  }

  /** No digits asked for: whether the value is more than half of the next power of ten. */
  method NoDigits(v: Fp, shift: nat, x: int, numerator: Bigint, denominator: Bigint) returns (buf: array<char>)
    requires SetUpFor(v, shift, x, numerator, denominator) && numerator.V() < 10 * denominator.V()
    modifies denominator
    ensures fresh(buf) && buf.Length == 1 && Rounded(v, buf[..], x + 1, x + 1)
  {
    denominator.Multiply(10);
    LongerIsGreater(numerator.bigits, numerator.exp, denominator.bigits, denominator.exp);
    var c := Bigint.AddCompare(numerator, numerator, denominator);
    var digit := if c > 0 then '1' else '0';
    buf := new char[] [digit];
    AtCoarserPlace(v, x, shift, if c > 0 then 1 else 0);
    assert Pow(10, 0) == 1 && buf[..0] == [] && buf[..] == [digit];
    assert DigitsValue(buf[..]) == DigitOf(digit);
  }
}
