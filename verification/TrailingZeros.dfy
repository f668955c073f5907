/**
 * Divisibility by powers of five and the removal of trailing decimal zeros, by multiplication with
 * a modular inverse instead of division: tools/unpacker/fmt/format-inl.h.
 */
module TrailingZeros {
  import opened Powers
  import opened Wrappers

  // ----- The divisibility test -----

  /**
   * With p * inv == 1 modulo m, multiplying by inv divides the multiples of p, and takes everything
   * else beyond the largest quotient.
   */
  lemma ModularInverse(m: nat, p: nat, inv: nat, x: nat)
    requires x < m && p > 0 && m > 1 && p * inv % m == 1
    ensures x * inv % m <= (m - 1) / p <==> x % p == 0
    ensures x % p == 0 ==> x * inv % m == x / p
  {
    var y, q := x * inv % m, x / p;
    QuotientBound(m, p, y);
    QuotientBound(m, p, q);
    if x % p == 0 {
      assert x == p * q;
      MultipleDivided(m, p, inv, q);
    }
    if p * y < m {
      SmallProductExact(m, p, inv, x, y);
    }
  }

  lemma QuotientBound(m: nat, p: nat, q: nat)
    requires p > 0 && m > 0
    ensures q <= (m - 1) / p <==> p * q < m
  {
    var bound := (m - 1) / p;
    assert p * (bound + 1) == p * bound + p;
    if q <= bound {
      MulLe(p, p, q, bound);
    } else {
      MulLe(p, p, bound + 1, q);
    }
  }

  lemma SmallProductExact(m: nat, p: nat, inv: nat, x: nat, y: nat)
    requires x < m && p > 0 && p * inv % m == 1 && x * inv % m == y && p * y < m
    ensures x % p == 0
  {
    var c, k := p * inv / m, x * inv / m;
    Cofactor(m, p, inv, x, c, k, y);
    SameQuotient(m, x * c - k * p, x, 0, p * y);
    DivModUnique(x, p, y, 0);
  }

  lemma MultipleDivided(m: nat, p: nat, inv: nat, q: nat)
    requires p > 0 && m > 1 && p * inv % m == 1 && p * q < m
    ensures p * q * inv % m == q
  {
    var c := p * inv / m;
    TimesInverse(m, p, inv, q, c);
    MulLe(1, p, q, q);
    DivModUnique(p * q * inv, m, q * c, q);
  }

  lemma Cofactor(m: int, p: int, inv: int, x: int, c: int, k: int, y: int)
    requires p * inv == m * c + 1 && x * inv == m * k + y
    ensures y * p == (x * c - k * p) * m + x
  {
    assert (x * inv) * p == x * (p * inv);
    assert (x * inv) * p == m * k * p + y * p;
    assert x * (m * c + 1) == x * (m * c) + x;
    assert (x * c - k * p) * m == x * c * m - k * p * m;
    assert x * (m * c) == x * c * m && m * k * p == k * p * m;
  }

  lemma TimesInverse(m: int, p: int, inv: int, q: int, c: int)
    requires p * inv == m * c + 1
    ensures (p * q) * inv == q * c * m + q
  {
    assert (p * q) * inv == q * (p * inv);
    assert q * (m * c + 1) == q * (m * c) + q;
    assert q * (m * c) == q * c * m;
  }

  datatype DivTest = DivTest(modInv: nat, maxQuotient: nat)

  const TABLE_32: seq<DivTest> := [
    DivTest(0x00000001, 0xffffffff),
    DivTest(0xcccccccd, 0x33333333),
    DivTest(0xc28f5c29, 0x0a3d70a3),
    DivTest(0x26e978d5, 0x020c49ba),
    DivTest(0x3afb7e91, 0x0068db8b),
    DivTest(0x0bcbe61d, 0x0014f8b5),
    DivTest(0x68c26139, 0x000431bd),
    DivTest(0xae8d46a5, 0x0000d6bf),
    DivTest(0x22e90e21, 0x00002af3),
    DivTest(0x3a2e9c6d, 0x00000897),
    DivTest(0x3ed61f49, 0x000001b7)
  ]

  const TABLE_64: seq<DivTest> := [
    DivTest(0x0000000000000001, 0xffffffffffffffff),
    DivTest(0xcccccccccccccccd, 0x3333333333333333),
    DivTest(0x8f5c28f5c28f5c29, 0x0a3d70a3d70a3d70),
    DivTest(0x1cac083126e978d5, 0x020c49ba5e353f7c),
    DivTest(0xd288ce703afb7e91, 0x0068db8bac710cb2),
    DivTest(0x5d4e8fb00bcbe61d, 0x0014f8b588e368f0),
    DivTest(0x790fb65668c26139, 0x000431bde82d7b63),
    DivTest(0xe5032477ae8d46a5, 0x0000d6bf94d5e57a),
    DivTest(0xc767074b22e90e21, 0x00002af31dc46118),
    DivTest(0x8e47ce423a2e9c6d, 0x0000089705f4136b),
    DivTest(0x4fa7f60d3ed61f49, 0x000001b7cdfd9d7b),
    DivTest(0x0fee64690c913975, 0x00000057f5ff85e5),
    DivTest(0x3662e0e1cf503eb1, 0x000000119799812d),
    DivTest(0xa47a2cf9f6433fbd, 0x0000000384b84d09),
    DivTest(0x54186f653140a659, 0x00000000b424dc35),
    DivTest(0x7738164770402145, 0x0000000024075f3d),
    DivTest(0xe4a4d1417cd9a041, 0x000000000734aca5),
    DivTest(0xc75429d9e5c5200d, 0x000000000170ef54),
    DivTest(0xc1773b91fac10669, 0x000000000049c977),
    DivTest(0x26b172506559ce15, 0x00000000000ec1e4),
    DivTest(0xd489e3a9addec2d1, 0x000000000002f394),
    DivTest(0x90e860bb892c8d5d, 0x000000000000971d),
    DivTest(0x502e79bf1b6f4f79, 0x0000000000001e39),
    DivTest(0xdcd618596be30fe5, 0x000000000000060b)
  ]

  const POWERS_OF_5: seq<nat> := [
    1,
    5,
    25,
    125,
    625,
    3125,
    15625,
    78125,
    390625,
    1953125,
    9765625,
    48828125,
    244140625,
    1220703125,
    6103515625,
    30517578125,
    152587890625,
    762939453125,
    3814697265625,
    19073486328125,
    95367431640625,
    476837158203125,
    2384185791015625,
    11920928955078125
  ]

  lemma {:induction false} PowersOf5(k: nat)
    requires k < |POWERS_OF_5|
    ensures POWERS_OF_5[k] == Pow(5, k)
    decreases k
  {
    if k > 0 {
      PowersOf5(k - 1);
      assert POWERS_OF_5[k] == 5 * POWERS_OF_5[k - 1];
    }
  }

  /** An entry holds the inverse of p and the largest quotient by p. */
  predicate EntryFor(entry: DivTest, p: nat, m: nat) {
    p > 0 && m > 0 && p * entry.modInv % m == 1 && entry.maxQuotient == (m - 1) / p
  }

  lemma Entry32(k: nat)
    requires k < |TABLE_32|
    ensures EntryFor(TABLE_32[k], POWERS_OF_5[k], U32)
  {
  }

  lemma Entry64(k: nat)
    requires k < |TABLE_64|
    ensures EntryFor(TABLE_64[k], POWERS_OF_5[k], U64)
  {
  }

  /** One multiplication and one comparison decide divisibility by a power of five, for all 32-bit x. */
  predicate DivisibleByPowerOf5In32(x: nat, exp: nat)
    requires x < U32 && exp <= 10
    ensures DivisibleByPowerOf5In32(x, exp) <==> x % Pow(5, exp) == 0
  {
    Entry32(exp);
    PowersOf5(exp);
    ModularInverse(U32, POWERS_OF_5[exp], TABLE_32[exp].modInv, x);
    x * TABLE_32[exp].modInv % U32 <= TABLE_32[exp].maxQuotient
  }

  predicate DivisibleByPowerOf5In64(x: nat, exp: nat)
    requires x < U64 && exp <= 23
    ensures DivisibleByPowerOf5In64(x, exp) <==> x % Pow(5, exp) == 0
  {
    Entry64(exp);
    PowersOf5(exp);
    ModularInverse(U64, POWERS_OF_5[exp], TABLE_64[exp].modInv, x);
    x * TABLE_64[exp].modInv % U64 <= TABLE_64[exp].maxQuotient
  }

  // ----- Twos and fives -----

  /** Number of trailing zero bits. */
  function Ctz(n: nat): nat
    requires n > 0
  {
    if n % 2 == 0 then 1 + Ctz(n / 2) else 0
  }

  function OddPart(n: nat): (odd: nat)
    requires n > 0
    ensures odd % 2 == 1
  {
    if n % 2 == 0 then OddPart(n / 2) else n
  }

  lemma {:induction false} CtzSplit(n: nat)
    requires n > 0
    ensures n == Pow(2, Ctz(n)) * OddPart(n)
    decreases n
  {
    if n % 2 == 0 {
      CtzSplit(n / 2);
      assert 2 * (Pow(2, Ctz(n / 2)) * OddPart(n)) == 2 * Pow(2, Ctz(n / 2)) * OddPart(n);
    } else {
      assert Pow(2, 0) == 1;
    }
  }

  lemma {:induction false} CtzUnique(k: nat, odd: nat)
    requires odd % 2 == 1
    ensures Pow(2, k) * odd > 0 && Ctz(Pow(2, k) * odd) == k
    decreases k
  {
    if k > 0 {
      CtzUnique(k - 1, odd);
      MulAssoc(2, Pow(2, k - 1), odd);
    } else {
      assert Pow(2, 0) == 1;
    }
  }

  lemma FiveDividesFactor(a: nat, m: nat)
    requires a % 5 != 0 && a * m % 5 == 0
    ensures m % 5 == 0
  {
    var c := if a % 5 == 2 then 3 else if a % 5 == 3 then 2 else a % 5;
    assert c * a % 5 == 1;
    FiveCancelled(a, m, c, a * m / 5, c * a / 5);
  }

  lemma FiveCancelled(a: int, m: int, c: int, z: int, k: int)
    requires c * a == 5 * k + 1 && a * m == 5 * z
    ensures m % 5 == 0
  {
    MulAssoc(c, a, m);
    assert (5 * k + 1) * m == 5 * (k * m) + m by {
      Distribute(5 * k, 1, m);
      MulAssoc(5, k, m);
    }
    MulAssoc(5, c, z);
    MulSwap(c, 5, z);
    MulAssoc(c, 5, z);
    DivModUnique(m, 5, c * z - k * m, 0);
  }

  /** Taking fives out of a number leaves its twos where they are. */
  lemma {:induction false} TwosStay(k: nat, odd: nat, n: nat, s: nat) returns (rest: nat)
    requires Pow(2, k) * odd == n * Pow(5, s)
    ensures n == Pow(2, k) * rest && odd == rest * Pow(5, s)
    decreases s
  {
    if s == 0 {
      assert Pow(5, 0) == 1;
      rest := odd;
    } else {
      var p := Pow(5, s - 1);
      assert n * (5 * p) == 5 * (n * p);
      Pow2NotFives(k);
      FiveDividesFactor(Pow(2, k), odd);
      var fifth := odd / 5;
      assert Pow(2, k) * (5 * fifth) == 5 * (Pow(2, k) * fifth);
      rest := TwosStay(k, fifth, n, s - 1);
      assert 5 * (rest * p) == rest * (5 * p);
    }
  }

  // ----- Removing trailing zeros -----

  /** n0 is n followed by s zeros, as many as there are up to the cap. */
  predicate Stripped(n0: nat, n: nat, s: nat, cap: nat) {
    n0 == n * Pow(10, s) && s <= cap && (s < cap ==> n % 10 != 0)
  }

  function ShiftRight(n: nat, s: nat): nat {
    n / Pow(2, s)
  }

  lemma ZerosShiftedOut(n0: nat, n: nat, s: nat, t: nat, cap: nat)
    requires n0 > 0 && t == Min(Ctz(n0), cap)
    requires n0 == n * Pow(5, s) && s <= t && (s < t ==> n % 5 != 0)
    ensures Stripped(n0, ShiftRight(n, s), s, cap)
  {
    var k, odd := Ctz(n0), OddPart(n0);
    CtzSplit(n0);
    var rest := TwosStay(k, odd, n, s);
    var high := Pow(2, k - s) * rest;
    TensOut(n0, n, s, k - s, rest);
    if s < t {
      FactorNotFive(Pow(2, s), high, n);
    } else if s == k {
      assert Pow(2, k - s) == 1;
      OddFactor(rest, Pow(5, s), odd);
    }
  }

  lemma TensOut(n0: nat, n: nat, s: nat, k: nat, rest: nat)
    requires n0 == n * Pow(5, s) && n == Pow(2, s + k) * rest
    ensures ShiftRight(n, s) == Pow(2, k) * rest && n == Pow(2, s) * (Pow(2, k) * rest)
    ensures n0 == Pow(2, k) * rest * Pow(10, s)
  {
    PowAdd(2, s, k);
    var p, high := Pow(2, s), Pow(2, k) * rest;
    assert n == p * high by {
      MulAssoc(p, Pow(2, k), rest);
    }
    DivModUnique(n, p, high, 0);
    PowOfProduct(2, 5, s);
    MulSwap(p, high, Pow(5, s));
    MulAssoc(high, p, Pow(5, s));
  }

  lemma MultipleOf(d: nat, p: nat, q: nat)
    requires d > 0
    ensures p * (d * q) % d == 0 && d * q * p % d == 0
  {
    MulSwap(d, q, p);
    MulAssoc(p, d, q);
    DivModUnique(p * (d * q), d, p * q, 0);
  }

  lemma FactorNotFive(p: nat, high: nat, n: nat)
    requires n == p * high && n % 5 != 0
    ensures high % 10 != 0
  {
    if high % 5 == 0 {
      MultipleOf(5, p, high / 5);
    }
  }

  lemma OddFactor(rest: nat, p: nat, odd: nat)
    requires odd == rest * p && odd % 2 == 1
    ensures rest % 10 != 0
  {
    if rest % 2 == 0 {
      MultipleOf(2, p, rest / 2);
    }
  }

  const MOD_INV_1 := 0xcccccccd
  const MAX_QUOTIENT_1 := 0x33333333
  const MOD_INV_2 := 0xc28f5c29
  const MAX_QUOTIENT_2 := 0x0a3d70a3
  const MOD_INV_8 := 0xc767074b22e90e21
  const MAX_QUOTIENT_8 := 0x00002af31dc46118

  function Mul32(a: nat, b: nat): nat {
    a * b % U32
  }

  lemma DividesBy5(n: nat)
    requires n < U32
    ensures Mul32(n, MOD_INV_1) <= MAX_QUOTIENT_1 <==> n % 5 == 0
    ensures n % 5 == 0 ==> n == 5 * Mul32(n, MOD_INV_1)
  {
    ModularInverse(U32, 5, MOD_INV_1, n);
  }

  lemma DividesBy25(n: nat)
    requires n < U32
    ensures Mul32(n, MOD_INV_2) <= MAX_QUOTIENT_2 <==> n % 25 == 0
    ensures n % 25 == 0 ==> n == 25 * Mul32(n, MOD_INV_2)
  {
    ModularInverse(U32, 25, MOD_INV_2, n);
  }

  /** k fives less. */
  lemma Fewer(n0: nat, n: nat, s: nat, k: nat, p: nat, q: nat)
    requires n0 == n * Pow(5, s) && p == Pow(5, k) && n == p * q
    ensures n0 == q * Pow(5, s + k)
  {
    PowAdd(5, s, k);
    MulAssoc(q, p, Pow(5, s));
    MulSwap(p, q, Pow(5, s));
  }

  lemma OneFive(n: nat, q: nat)
    requires n == 5 * q
    ensures n % 25 == 0 <==> q % 5 == 0
  {
  }

  method RemoveTrailingZeros32(n: nat) returns (n': nat, s: nat)
    requires 0 < n < U32
    ensures Stripped(n, n', s, 7)
  {
    var t := Min(Ctz(n), 7);
    n', s := FewerFives(n, t);
    ZerosShiftedOut(n, n', s, t, 7);
    n' := ShiftRight(n', s);
  }

  /** Up to t factors of five removed, two at a time. */
  method FewerFives(n: nat, t: nat) returns (n': nat, s: nat)
    requires 0 < n < U32
    ensures n == n' * Pow(5, s) && s <= t && (s < t ==> n' % 5 != 0)
  {
    assert Pow(5, 0) == 1 && Pow(5, 1) == 5 && Pow(5, 2) == 25;
    n', s := n, 0;
    while s < t - 1
      invariant s <= t && n' < U32 && n == n' * Pow(5, s)
      decreases t - s
    {
      DividesBy25(n');
      if Mul32(n', MOD_INV_2) > MAX_QUOTIENT_2 {
        break;
      }
      Fewer(n, n', s, 2, 25, Mul32(n', MOD_INV_2));
      n' := Mul32(n', MOD_INV_2);
      s := s + 2;
    }
    assert s < t - 1 ==> n' % 25 != 0;
    DividesBy5(n');
    if s < t && Mul32(n', MOD_INV_1) <= MAX_QUOTIENT_1 {
      Fewer(n, n', s, 1, 5, Mul32(n', MOD_INV_1));
      OneFive(n', Mul32(n', MOD_INV_1));
      n' := Mul32(n', MOD_INV_1);
      s := s + 1;
    }
  }

  // ----- The 64-bit form -----

  const MAX_DOUBLE_ZEROS := 16

  /** The 64-bit form's input range. */
  const MAX_SIGNIFICAND_64 := (U64 - 1) / 1000

  method RemoveTrailingZeros64(n: nat) returns (n': nat, s: nat)
    requires 0 < n <= MAX_SIGNIFICAND_64
    ensures Stripped(n, n', s, MAX_DOUBLE_ZEROS)
  {
    var t := Min(Ctz(n), MAX_DOUBLE_ZEROS);
    assert Pow(5, 8) == 390625 by {
      PowersOf5(8);
    }
    ModularInverse(U64, 390625, MOD_INV_8, n);
    if t >= 8 {
      var quotientCandidate := n * MOD_INV_8 % U64;
      if quotientCandidate <= MAX_QUOTIENT_8 {
        n', s := FromQuotient(n, quotientCandidate, t);
        return;
      }
    }
    n', s := FromRemainder(n, t);
  }

  /** More than eight zeros: the quotient by pow(10, 8) fits 32 bits. */
  method FromQuotient(n: nat, quotientCandidate: nat, t: nat) returns (n': nat, s: nat)
    requires 0 < n <= MAX_SIGNIFICAND_64 && 8 <= t == Min(Ctz(n), MAX_DOUBLE_ZEROS)
    requires n == quotientCandidate * Pow(5, 8)
    ensures Stripped(n, n', s, MAX_DOUBLE_ZEROS)
  {
    var quotient := EightDigitsLess(n, quotientCandidate);
    n', s := ShortenQuotient(quotient, t);
    MoreZeros(n, quotient, n', s - 8);
  }

  lemma MoreZeros(n: nat, quotient: nat, short: nat, s: nat)
    requires n == quotient * Pow(10, 8) && Stripped(quotient, short, s, 8)
    ensures Stripped(n, short, s + 8, 16)
  {
    PowAdd(10, s, 8);
    MulAssoc(short, Pow(10, s), Pow(10, 8));
  }

  method ShortenQuotient(quotient: nat, t: nat) returns (n': nat, s: nat)
    requires 0 < quotient < U32 && 8 <= t == 8 + Min(Ctz(quotient), 8)
    ensures 8 <= s && Stripped(quotient, n', s - 8, 8)
  {
    assert Pow(5, 0) == 1 && Pow(5, 1) == 5;
    n', s := quotient, 8;
    while s < t
      invariant 8 <= s <= t && n' < U32 && quotient == n' * Pow(5, s - 8)
    {
      DividesBy5(n');
      if Mul32(n', MOD_INV_1) > MAX_QUOTIENT_1 {
        break;
      }
      Fewer(quotient, n', s - 8, 1, 5, Mul32(n', MOD_INV_1));
      n' := Mul32(n', MOD_INV_1);
      s := s + 1;
    }
    ZerosShiftedOut(quotient, n', s - 8, t - 8, 8);
    n' := ShiftRight(n', s - 8);
  }

  method EightDigitsLess(ghost n: nat, quotientCandidate: nat) returns (quotient: nat)
    requires 0 < n <= MAX_SIGNIFICAND_64 && Ctz(n) >= 8 && n == quotientCandidate * Pow(5, 8)
    ensures 0 < quotient < U32 && n == quotient * Pow(10, 8) && Ctz(quotient) == Ctz(n) - 8
  {
    ghost var q := EightZeros(n, quotientCandidate);
    quotient := quotientCandidate / 256 % U32;
    assert quotient == q;
  }

  lemma EightZeros(n: nat, candidate: nat) returns (q: nat)
    requires 0 < n <= MAX_SIGNIFICAND_64 && Ctz(n) >= 8 && n == candidate * Pow(5, 8)
    ensures q == candidate / 256 && 0 < q < U32 && n == q * Pow(10, 8) && Ctz(q) == Ctz(n) - 8
  {
    var k, odd := Ctz(n), OddPart(n);
    CtzSplit(n);
    var rest := TwosStay(k, odd, candidate, 8);
    TensOut(n, candidate, 8, k - 8, rest);
    assert Pow(2, 8) == 256 && Pow(10, 8) == 100000000;
    assert rest % 2 == 1 by {
      OddRest(rest, Pow(5, 8), odd);
    }
    CtzUnique(k - 8, rest);
    q := candidate / 256;
  }

  lemma OddRest(rest: nat, p: nat, odd: nat)
    requires odd == rest * p && odd % 2 == 1
    ensures rest % 2 == 1
  {
    if rest % 2 == 0 {
      MultipleOf(2, p, rest / 2);
    }
  }

  /** 256 * pow(5, 8 - k) * quotient. */
  function HighPart(quotient: nat, k: nat): nat
    requires k <= 8
    decreases 8 - k
  {
    if k == 8 then 256 * quotient else 5 * HighPart(quotient, k + 1)
  }

  /** pow(10, 8 - k) * quotient. */
  function Tens(quotient: nat, k: nat): nat
    requires k <= 8
    decreases 8 - k
  {
    if k == 8 then quotient else 10 * Tens(quotient, k + 1)
  }

  lemma {:induction false} HighPartTwos(quotient: nat, k: nat)
    requires k <= 8
    ensures HighPart(quotient, k) == Pow(2, k) * Tens(quotient, k)
    decreases 8 - k
  {
    if k == 8 {
      assert Pow(2, 8) == 256;
    } else {
      HighPartTwos(quotient, k + 1);
      TwoFives(Pow(2, k), Tens(quotient, k + 1));
    }
  }

  lemma TwoFives(p: int, x: int)
    ensures 5 * (2 * p * x) == p * (10 * x)
  {
    MulAssoc(2, p, x);
    MulAssoc(p, 10, x);
  }

  lemma TensTable(q: nat)
    ensures Tens(q, 7) == q * 10 && Tens(q, 6) == q * 100 && Tens(q, 5) == q * 1000
    ensures Tens(q, 4) == q * 10000 && Tens(q, 3) == q * 100000 && Tens(q, 2) == q * 1000000
    ensures Tens(q, 1) == q * 10000000 && Tens(q, 0) == q * 100000000
  {
    assert Tens(q, 8) == q;
    assert Tens(q, 6) == 10 * Tens(q, 7);
    assert Tens(q, 4) == 10 * Tens(q, 5);
    assert Tens(q, 2) == 10 * Tens(q, 3);
  }

  /** k fives taken out of the remainder are k fives taken out of n. */
  predicate Quinted(n: nat, quotient: nat, remainder: nat, k: nat) {
    k <= 8 && remainder < 100000000 && n == (remainder + HighPart(quotient, k)) * Pow(5, k)
  }

  /** The subtraction is done modulo pow(2, 32). */
  lemma RemainderFits(n: nat, quotient: nat)
    requires n <= MAX_SIGNIFICAND_64 && quotient == n / 100000000 % U32
    ensures Quinted(n, quotient, (n - Mul32(100000000, quotient)) % U32, 0)
  {
    HighPartTwos(quotient, 0);
    TensTable(quotient);
    assert Pow(5, 0) == 1 && Pow(2, 0) == 1;
    var product := 100000000 * quotient;
    DivModUnique(n - product % U32, U32, product / U32, n % 100000000);
  }

  lemma NextFive(n: nat, quotient: nat, remainder: nat, k: nat)
    requires Quinted(n, quotient, remainder, k) && k < 8 && Mul32(remainder, MOD_INV_1) <= MAX_QUOTIENT_1
    ensures Quinted(n, quotient, Mul32(remainder, MOD_INV_1), k + 1)
  {
    DividesBy5(remainder);
    var part := Mul32(remainder, MOD_INV_1) + HighPart(quotient, k + 1);
    MulSwap(5, part, Pow(5, k));
    MulAssoc(part, 5, Pow(5, k));
  }

  lemma ReturnAt(n: nat, quotient: nat, remainder: nat, k: nat, t: nat)
    requires Quinted(n, quotient, remainder, k) && n > 0 && k <= 7
    requires k <= t == Min(Ctz(n), MAX_DOUBLE_ZEROS) && (k < t ==> Mul32(remainder, MOD_INV_1) > MAX_QUOTIENT_1)
    ensures Stripped(n, ShiftRight(remainder, k) + Tens(quotient, k), k, MAX_DOUBLE_ZEROS)
  {
    DividesBy5(remainder);
    var high := HighPart(quotient, k);
    var all := remainder + high;
    FiveAside(remainder, HighPart(quotient, k + 1));
    ZerosShiftedOut(n, all, k, t, MAX_DOUBLE_ZEROS);
    HighPartTwos(quotient, k);
    AddMultiple(remainder, Pow(2, k), Tens(quotient, k));
    assert ShiftRight(all, k) == ShiftRight(remainder, k) + Tens(quotient, k);
  }

  lemma FiveAside(r: nat, h: nat)
    ensures (r + 5 * h) % 5 == r % 5
  {
  }

  lemma AddMultiple(r: nat, p: nat, high: nat)
    requires p > 0
    ensures (r + p * high) / p == r / p + high
  {
    Distribute(r / p, high, p);
    DivModUnique(r + p * high, p, r / p + high, r % p);
  }

  lemma LastReturn(n: nat, quotient: nat, remainder: nat, t: nat)
    requires Quinted(n, quotient, remainder, 7) && n > 0
    requires 7 <= t == Min(Ctz(n), MAX_DOUBLE_ZEROS) && (t >= 8 ==> n % Pow(5, 8) != 0)
    ensures Stripped(n, ShiftRight(remainder, 7) + quotient * 10, 7, MAX_DOUBLE_ZEROS)
  {
    if Mul32(remainder, MOD_INV_1) <= MAX_QUOTIENT_1 {
      NextFive(n, quotient, remainder, 7);
      var eighth := Mul32(remainder, MOD_INV_1) + HighPart(quotient, 8);
      DivModUnique(n, Pow(5, 8), eighth, 0);
    }
    TensTable(quotient);
    ReturnAt(n, quotient, remainder, 7, t);
  }

  /** Fewer than eight zeros: they are those of the remainder by pow(10, 8). */
  method FromRemainder(n: nat, t: nat) returns (n': nat, s: nat)
    requires 0 < n <= MAX_SIGNIFICAND_64 && t == Min(Ctz(n), MAX_DOUBLE_ZEROS)
    requires t >= 8 ==> n % Pow(5, 8) != 0
    ensures Stripped(n, n', s, MAX_DOUBLE_ZEROS)
  {
    var quotient := n / 100000000 % U32;
    var remainder := (n - Mul32(100000000, quotient)) % U32;
    RemainderFits(n, quotient);
    TensTable(quotient);
    var done;
    done, remainder := NextZero(n, quotient, remainder, 0, t, 100000000);
    if done {
      return remainder, 0;
    }
    done, remainder := NextZero(n, quotient, remainder, 1, t, 10000000);
    if done {
      return remainder, 1;
    }
    done, remainder := NextZero(n, quotient, remainder, 2, t, 1000000);
    if done {
      return remainder, 2;
    }
    done, remainder := NextZero(n, quotient, remainder, 3, t, 100000);
    if done {
      return remainder, 3;
    }
    done, remainder := NextZero(n, quotient, remainder, 4, t, 10000);
    if done {
      return remainder, 4;
    }
    done, remainder := NextZero(n, quotient, remainder, 5, t, 1000);
    if done {
      return remainder, 5;
    }
    done, remainder := NextZero(n, quotient, remainder, 6, t, 100);
    if done {
      return remainder, 6;
    }
    LastReturn(n, quotient, remainder, t);
    return ShiftRight(remainder, 7) + quotient * 10, 7;
  }

  /**
   * One step of the chain: either there is no zero more, and the number without its zeros comes
   * back, or a fifth of the remainder does.
   */
  method NextZero(ghost n: nat, quotient: nat, remainder: nat, k: nat, t: nat, unit: nat)
    returns (done: bool, rest: nat)
    requires Quinted(n, quotient, remainder, k) && n > 0 && k <= 6 && k <= t == Min(Ctz(n), MAX_DOUBLE_ZEROS)
    requires Tens(quotient, k) == quotient * unit
    ensures done ==> Stripped(n, rest, k, MAX_DOUBLE_ZEROS)
    ensures !done ==> k < t && Quinted(n, quotient, rest, k + 1)
  {
    done := t == k || Mul32(remainder, MOD_INV_1) > MAX_QUOTIENT_1;
    if done {
      ReturnAt(n, quotient, remainder, k, t);
      rest := ShiftRight(remainder, k) + quotient * unit;
    } else {
      NextFive(n, quotient, remainder, k);
      rest := Mul32(remainder, MOD_INV_1);
    }
  }
}
