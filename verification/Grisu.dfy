/**
 * grisu_gen_digits of tools/unpacker/fmt/format-inl.h: digits of a scaled value that is known only
 * up to an error. 64-bit variables have type `Word`, so that every sum and product is checked.
 */
module Grisu {
  import opened Powers
  import opened DecimalDigits
  import opened FormatDragon

  newtype Word = x: int | 0 <= x < U64

  // ----- Rounding under uncertainty -----

  datatype RoundDirection = Unknown | Up | Down

  function GetRoundDirection(divisor: Word, remainder: Word, error: Word): RoundDirection
    requires remainder < divisor && error < divisor && error < divisor - error
  {
    if remainder <= divisor - remainder && error * 2 <= divisor - remainder * 2 then
      Down
    else if remainder >= error && remainder - error >= divisor - (remainder - error) then
      Up
    else
      Unknown
  }

  /** Every number within `error` of n is within half a unit of q units. */
  predicate WithinHalf(n: int, error: int, unit: int, q: int) {
    2 * (n + error - q * unit) <= unit && 2 * (q * unit - (n - error)) <= unit
  }

  /** No multiple of the unit is right for all of them. */
  ghost predicate Undecided(n: int, error: int, unit: int) {
    forall q: int {:trigger WithinHalf(n, error, unit, q)} :: !WithinHalf(n, error, unit, q)
  }

  /** What is known about f to within 1 does not tell its multiple of the unit at that place. */
  ghost predicate UndecidedAt(f: nat, one: nat, place: int) {
    Undecided(Shifted(f, -place), Shifted(1, -place), Shifted(one, place))
  }

  /** Beyond the point, the error has caught up with what is left of f. */
  predicate Lost(f: nat, one: nat, place: int)
    requires one > 0
  {
    place < 0 && Shifted(f, -place) % one <= Shifted(1, -place)
  }

  lemma {:induction false} LostBelow(f: nat, one: nat, place: int, lower: int)
    requires one > 0 && lower <= place && Lost(f, one, place)
    ensures Lost(f, one, lower)
    decreases place - lower
  {
    if lower < place {
      LostBelow(f, one, place, lower + 1);
      TenfoldRemainder(Shifted(f, -lower - 1), one);
    }
  }

  lemma TenfoldRemainder(x: nat, one: nat)
    requires one > 0
    ensures 10 * x % one <= 10 * (x % one)
  {
    var q, r := x / one, x % one;
    var q', r' := 10 * r / one, 10 * r % one;
    assert x == q * one + r && 10 * r == q' * one + r';
    MulAssoc(10, q, one);
    Distribute(10 * q, q', one);
    DivModUnique(10 * x, one, 10 * q + q', r');
    PartFits(q', one);
  }

  /** Only the two neighbours can be within half a unit. */
  lemma NearestNeighbours(n: int, error: int, unit: int, whole: int, remainder: int, q: int)
    requires 0 <= remainder < unit && 0 <= error && n == whole * unit + remainder
    requires WithinHalf(n, error, unit, q)
    ensures q == whole || q == whole + 1
  {
    var k := q - whole;
    Distribute(whole, k, unit);
    assert -unit <= 2 * (k * unit - remainder) <= unit;
    if k >= 2 {
      Distribute(k - 1, 1, unit);
      AtLeastOnce(k - 1, unit);
    }
    assert -(k * unit) == -k * unit;
    if k <= -1 {
      AtLeastOnce(-k, unit);
    }
  }

  lemma RoundDirectionExact(divisor: Word, remainder: Word, error: Word, whole: int)
    requires remainder < divisor && error < divisor && error < divisor - error
    ensures var n, e, d := whole * divisor as int + remainder as int, error as int, divisor as int;
      match GetRoundDirection(divisor, remainder, error)
      case Down => WithinHalf(n, e, d, whole)
      case Up => WithinHalf(n, e, d, whole + 1) && !WithinHalf(n, e, d, whole)
      case Unknown => Undecided(n, e, d)
  {
    var n, e, d, r := whole * divisor as int + remainder as int, error as int, divisor as int, remainder as int;
    Distribute(whole, 1, d);
    assert WithinHalf(n, e, d, whole) <==> 2 * (r + e) <= d;
    assert WithinHalf(n, e, d, whole + 1) <==> 2 * (r - e) >= d;
    forall q | WithinHalf(n, e, d, q)
      ensures q == whole || q == whole + 1
    {
      NearestNeighbours(n, e, d, whole, r, q);
    }
  }

  /** x * pow(10, k), or x itself where k is negative. */
  function Shifted(x: nat, k: int): nat
    decreases Plus(k)
  {
    if k <= 0 then x else 10 * Shifted(x, k - 1)
  }

  lemma {:induction false} ShiftedIs(x: nat, k: int)
    ensures Shifted(x, k) == x * Pow(10, Plus(k))
    decreases Plus(k)
  {
    if k > 0 {
      ShiftedIs(x, k - 1);
      assert 10 * (x * Pow(10, k - 1)) == x * (10 * Pow(10, k - 1));
    } else {
      assert Pow(10, 0) == 1;
    }
  }

  predicate HalfUnit(x: real, unit: nat, q: int) {
    -(unit as real) <= 2.0 * (x - (q * unit) as real) <= unit as real
  }

  /** v * p is within half a unit of q units. */
  predicate CorrectFor(v: real, p: nat, unit: nat, q: int) {
    HalfUnit(v * p as real, unit, q)
  }

  /** Every v within `error` of f, times p, is within half a unit of q units. */
  ghost predicate AllWithin(f: nat, error: nat, p: nat, unit: nat, q: int) {
    forall v: real :: (f - error) as real <= v <= (f + error) as real ==> CorrectFor(v, p, unit, q)
  }

  /**
   * Every number that differs from f by at most `error`, in units of 1 / scale, is within half of
   * pow(10, place) of q * pow(10, place).
   */
  ghost predicate AllCorrectAt(f: nat, error: nat, scale: nat, place: int, q: int) {
    AllWithin(f, error, Pow(10, Plus(-place)), Shifted(scale, place), q)
  }

  lemma WholeIntervalCorrect(f: nat, error: nat, scale: nat, place: int, q: int)
    requires WithinHalf(Shifted(f, -place), Shifted(error, -place), Shifted(scale, place), q)
    ensures AllCorrectAt(f, error, scale, place, q)
  {
    ShiftedIs(f, -place);
    ShiftedIs(error, -place);
    AllInside(f, error, Pow(10, Plus(-place)), Shifted(f, -place), Shifted(error, -place), Shifted(scale, place), q);
  }

  lemma AllInside(f: nat, error: nat, p: nat, n: int, e: int, unit: nat, q: int)
    requires n == f * p && e == error * p && WithinHalf(n, e, unit, q)
    ensures AllWithin(f, error, p, unit, q)
  {
    forall v: real | (f - error) as real <= v <= (f + error) as real
      ensures CorrectFor(v, p, unit, q)
    {
      ScaledInterval(v, f, error, p, n, e);
      InsideInterval(v * p as real, n, e, unit, q);
    }
  }

  lemma InsideInterval(x: real, n: int, error: int, unit: nat, q: int)
    requires WithinHalf(n, error, unit, q) && (n - error) as real <= x <= (n + error) as real
    ensures HalfUnit(x, unit, q)
  {
    var m := q * unit;
    assert (2 * (n + error - m)) as real <= unit as real && (2 * (m - (n - error))) as real <= unit as real;
  }

  lemma ScaledInterval(v: real, f: nat, error: nat, p: nat, n: int, e: int)
    requires (f - error) as real <= v <= (f + error) as real && n == f * p && e == error * p
    ensures (n - e) as real <= v * p as real <= (n + e) as real
  {
    var low: int := f - error;
    var high: int := f + error;
    MulReal(low as real, v, p as real);
    MulReal(v, high as real, p as real);
    ProductOfCasts(low, p);
    ProductOfCasts(high, p);
    Distribute(f, error, p);
    assert low * p == n - e by {
      Distribute(low, error, p);
    }
  }

  lemma MulReal(a: real, b: real, p: real)
    requires a <= b && p >= 0.0
    ensures a * p <= b * p
  {
    assert (b - a) * p >= 0.0;
  }

  lemma {:induction false} ProductOfCasts(a: int, p: nat)
    ensures a as real * p as real == (a * p) as real
    decreases p
  {
    if p > 0 {
      ProductOfCasts(a, p - 1);
      assert a * p == a * (p - 1) + a;
      assert p as real == (p - 1) as real + 1.0;
      assert a as real * ((p - 1) as real + 1.0) == a as real * (p - 1) as real + a as real;
    }
  }

  // ----- The digit buffer -----

  datatype Result = More | Done | Error

  class GenDigitsHandler {
    const buf: array<char>
    var size: nat
    var precision: int
    var exp10: int
    const fixed: bool

    constructor (buf: array<char>, precision: int, exp10: int, fixed: bool)
      ensures this.buf == buf && size == 0 && this.precision == precision && this.exp10 == exp10
      ensures this.fixed == fixed
    {
      this.buf, this.size, this.precision, this.exp10, this.fixed := buf, 0, precision, exp10, fixed;
    }

    ghost predicate Valid()
      reads `size, buf
    {
      size <= buf.Length && forall k :: 0 <= k < size ==> IsDigit(buf[k])
    }

    ghost function Digits(): (s: seq<char>)
      requires size <= buf.Length
      reads `size, buf
    {
      buf[..size]
    }

    /** The digits after rounding, when there were `count` of them before. */
    ghost predicate RoundedFrom(count: nat, oldExp10: int)
      reads `size, `exp10, buf
    {
      && 0 < count <= size <= buf.Length && 0 <= exp10 - oldExp10 <= 1
      && (fixed ==> exp10 == oldExp10)
      && (exp10 > oldExp10 ==> DigitsValue(Digits()) == Pow(10, size - 1))
      && (size == count || (fixed && size == count + 1 && DigitsValue(Digits()) == Pow(10, count)))
    }

    /**
     * Where digit generation stands after a call: `count` is the number of integral digits of the
     * value f / one, known to within error / one, and `exp` the place of the last digit.
     */
    ghost predicate Outcome(r: Result, f: nat, one: nat, exp: int, count: nat, oldExp10: int)
      requires one > 0
      reads `size, `precision, `exp10, buf
    {
      && size <= buf.Length
      && match r
         case More => exp + size == count && exp10 == oldExp10 && size < precision
         case Error =>
           && exp + size == count && exp10 == oldExp10 && exp >= count - Target(precision)
           && (Lost(f, one, exp) || (exp == count - Target(precision) && UndecidedAt(f, one, exp)))
         case Done =>
           && exp == count - Target(precision) && !Lost(f, one, exp)
           && RoundedFrom(Target(precision), oldExp10)
           && WithinHalf(Shifted(f, -exp), Shifted(1, -exp), Shifted(one, exp),
                         DigitsValue(Digits()) * Pow(10, exp10 - oldExp10))
    }

    /** Adds one in the last place; a fixed format grows by a digit where the others scale by ten. */
    method RoundUp()
      requires Valid() && 0 < size < buf.Length
      modifies `size, `exp10, buf
      ensures Valid()
      ensures RoundedFrom(old(size), old(exp10))
      ensures DigitsValue(Digits()) * Pow(10, exp10 - old(exp10)) == old(DigitsValue(Digits())) + 1
      ensures old(buf[0]) != '0' ==> buf[0] != '0'
    {
      Increment();
      CarryDigits();
      assert Pow(10, 0) == 1;
      if buf[0] > '9' {
        OneMoreDigit();
      }
    }

    /** All digits were nines. */
    method OneMoreDigit()
      requires 0 < size < buf.Length && buf[0] == CharOf(10)
      requires forall k :: 0 < k < size ==> buf[k] == '0'
      modifies `size, `exp10, buf
      ensures Valid() && buf[0] == '1'
      ensures RoundedFrom(old(size), old(exp10))
      ensures DigitsValue(Digits()) * Pow(10, exp10 - old(exp10)) == old(DigitsValue(Digits()))
    {
      RoundNumber(Digits());
      assert Pow(10, 0) == 1 && Pow(10, 1) == 10;
      buf[0] := '1';
      if fixed {
        buf[size] := '0';
        size := size + 1;
      } else {
        exp10 := exp10 + 1;
      }
      RoundNumber(Digits());
    }

    method Increment()
      requires Valid() && 0 < size
      modifies buf
      ensures forall k :: 0 <= k < size - 1 ==> buf[k] == old(buf[k])
      ensures '0' < buf[size - 1] <= CharOf(10)
      ensures DigitsValue(Digits()) == old(DigitsValue(Digits())) + 1
    {
      ghost var s, last := buf[..size], size - 1;
      buf[size - 1] := (buf[size - 1] as int + 1) as char;
      assert buf[..size] == s[last := buf[last]];
      assert Pow(10, 0) == 1;
      DigitUpdate(s, last, buf[last]);
    }

    method CarryDigits()
      requires 0 < size <= buf.Length && '0' < buf[size - 1] <= CharOf(10)
      requires forall k :: 0 <= k < size - 1 ==> IsDigit(buf[k])
      modifies buf
      ensures '0' <= buf[0] <= CharOf(10)
      ensures forall k :: 0 < k < size ==> IsDigit(buf[k])
      ensures buf[0] > '9' ==> forall k :: 0 < k < size ==> buf[k] == '0'
      ensures old(buf[0]) != '0' ==> buf[0] != '0'
      ensures DigitsValue(Digits()) == old(DigitsValue(Digits()))
    {
      var i := size - 1;
      while i > 0 && buf[i] > '9'
        invariant 0 <= i < size
        invariant forall k :: 0 <= k < i ==> IsDigit(buf[k]) && buf[k] == old(buf[k])
        invariant forall k :: i < k < size ==> buf[k] == '0'
        invariant '0' < buf[i] <= CharOf(10)
        invariant DigitsValue(Digits()) == old(DigitsValue(Digits()))
      {
        ghost var s := buf[..size];
        CarryOne(s, i);
        buf[i] := '0';
        buf[i - 1] := (buf[i - 1] as int + 1) as char;
        assert buf[..size] == s[i := '0'][i - 1 := (s[i - 1] as int + 1) as char];
        i := i - 1;
      }
    }

    method PushBack(digit: char)
      requires Valid() && size < buf.Length && IsDigit(digit)
      modifies `size, buf
      ensures Valid() && size == old(size) + 1 && Digits() == old(Digits()) + [digit]
      ensures buf[0] == if old(size) == 0 then digit else old(buf[0])
    {
      ghost var before := Digits();
      buf[size] := digit;
      size := size + 1;
      assert Digits() == before + [digit];
    }

    /**
     * Takes one digit. With P the number written so far, the value being printed is within `error`
     * of P * divisor + remainder.
     */
    method OnDigit(digit: char, divisor: Word, remainder: Word, error: Word, integral: bool) returns (r: Result)
      requires Valid() && size + 1 < buf.Length && IsDigit(digit)
      requires remainder < divisor && (integral ==> error == 1 && divisor > 2)
      modifies `size, `exp10, buf
      ensures Valid()
      ensures r != Done ==> Digits() == old(Digits()) + [digit] && exp10 == old(exp10)
      ensures r == More <==> (integral || error < remainder) && old(size) + 1 < precision
      ensures old(size) > 0 && old(buf[0]) != '0' ==> buf[0] != '0'
      ensures old(size) == 0 && digit != '0' ==> buf[0] != '0'
      ensures var n := DigitsValue(old(Digits()) + [digit]) * divisor as int + remainder as int;
        match r
        case More => true
        case Error =>
          || (!integral && error >= remainder)
          || (precision <= old(size) + 1 && Undecided(n, error as int, divisor as int))
        case Done =>
          && old(size) + 1 >= precision && (integral || error < remainder)
          && RoundedFrom(old(size) + 1, old(exp10))
          && WithinHalf(n, error as int, divisor as int, DigitsValue(Digits()) * Pow(10, exp10 - old(exp10)))
    {
      PushBack(digit);
      if !integral && error >= remainder {
        return Error;
      }
      if size < precision {
        return More;
      }
      r := RoundLast(divisor, remainder, error, integral);
    }

    /** Rounds what has been written to a correct last digit, if the error allows it. */
    method RoundLast(divisor: Word, remainder: Word, error: Word, integral: bool) returns (r: Result)
      requires Valid() && 0 < size < buf.Length
      requires remainder < divisor && (if integral then error == 1 && divisor > 2 else error < remainder)
      modifies `size, `exp10, buf
      ensures Valid()
      ensures old(buf[0]) != '0' ==> buf[0] != '0'
      ensures r != More
      ensures r == Error ==> Digits() == old(Digits()) && exp10 == old(exp10)
      ensures var n := old(DigitsValue(Digits())) * divisor as int + remainder as int;
        if r == Done then
          && RoundedFrom(old(size), old(exp10))
          && WithinHalf(n, error as int, divisor as int, DigitsValue(Digits()) * Pow(10, exp10 - old(exp10)))
        else Undecided(n, error as int, divisor as int)
    {
      ghost var whole := DigitsValue(Digits());
      if !integral {
        if error >= divisor || error >= divisor - error {
          TooWide(whole, divisor as int, remainder as int, error as int);
          return Error;
        }
      }
      var dir := GetRoundDirection(divisor, remainder, error);
      RoundDirectionExact(divisor, remainder, error, whole);
      if dir != Up {
        assert Pow(10, 0) == 1;
        return if dir == Down then Done else Error;
      }
      RoundUp();
      return Done;
    }
  }

  /** At least one digit is always written. */
  function Target(precision: int): nat {
    if precision < 1 then 1 else precision
  }

  /** Half a unit or more of error leaves nothing that is right for the whole interval. */
  lemma TooWide(whole: int, divisor: int, remainder: int, error: int)
    requires 0 <= error < remainder < divisor && 2 * error >= divisor
    ensures Undecided(whole * divisor + remainder, error, divisor)
  {
    var n := whole * divisor + remainder;
    Distribute(whole, 1, divisor);
    forall q | WithinHalf(n, error, divisor, q)
      ensures false
    {
      NearestNeighbours(n, error, divisor, whole, remainder, q);
    }
  }

  // ----- Generating digits -----

  /** f, in units of 1 / pow(10, -place), is the digits so far at that place, and a rest. */
  ghost predicate Split(f: nat, one: nat, place: int, digits: int, rest: int) {
    && Shifted(f, -place) == digits * Shifted(one, place) + rest
    && 0 <= rest < Shifted(one, place)
  }

  lemma NextIntegralDigit(f: nat, one: nat, place: nat, digits: int, digit: nat, rest: nat, fractional: nat)
    requires rest < Pow(10, place) && fractional < one
    requires Split(f, one, place + 1, digits, (Pow(10, place) * digit + rest) * one + fractional)
    ensures digit <= 9 && Split(f, one, place, 10 * digits + digit, rest * one + fractional)
  {
    ShiftedIs(one, place);
    TakeOff(Shifted(one, place), one, Pow(10, place), digit, rest, fractional);
    SplitDigit(f, one, place, digits, digit, rest * one + fractional);
  }

  lemma SplitDigit(f: nat, one: nat, place: nat, digits: int, digit: nat, part: nat)
    requires part < Shifted(one, place)
    requires Split(f, one, place + 1, digits, digit * Shifted(one, place) + part)
    ensures digit <= 9 && Split(f, one, place, 10 * digits + digit, part)
  {
    var unit := Shifted(one, place);
    assert Shifted(one, place + 1) == 10 * unit;
    OneDigitMore(unit, digits, digit, part);
  }

  lemma TakeOff(unit: nat, one: nat, d: nat, digit: nat, rest: nat, fractional: nat)
    requires unit == one * d && rest < d && fractional < one
    ensures (d * digit + rest) * one + fractional == digit * unit + (rest * one + fractional)
    ensures rest * one + fractional < unit
  {
    Distribute(d * digit, rest, one);
    assert d * digit * one == digit * unit by {
      MulAssoc(digit, one, d);
      MulSwap(digit, one, d);
    }
    MulLe(rest + 1, d, one, one);
    Distribute(rest, 1, one);
  }

  lemma OneDigitMore(unit: nat, digits: int, digit: nat, part: nat)
    requires digit * unit + part < 10 * unit
    ensures digit <= 9
    ensures digits * (10 * unit) + (digit * unit + part) == (10 * digits + digit) * unit + part
  {
    if digit >= 10 {
      MulLe(10, digit, unit, unit);
    }
    Distribute(10 * digits, digit, unit);
    MulAssoc(digits, 10, unit);
  }

  lemma TenTimes(digits: int, one: nat, fractional: nat)
    ensures 10 * (digits * one + fractional) == digits * (10 * one) + 10 * fractional
  {
    MulAssoc(digits, 10, one);
  }

  lemma NextFractionalDigit(f: nat, one: nat, place: int, digits: int, fractional: nat, digit: nat, rest: nat)
    requires place <= 0 && Split(f, one, place, digits, fractional)
    requires 10 * fractional == digit * one + rest && rest < one
    ensures digit <= 9 && Split(f, one, place - 1, 10 * digits + digit, rest)
  {
    TenTimes(digits, one, fractional);
    OneDigitMore(one, digits, digit, rest);
  }

  /** A digit of f / one at the given place. */
  method GiveDigit(handler: GenDigitsHandler, digit: nat, divisor: Word, remainder: Word, error: Word,
                   ghost f: nat, ghost one: nat, place: int)
    returns (r: Result)
    requires handler.Valid() && handler.size + 1 < handler.buf.Length && digit <= 9
    requires handler.size == 0 || (handler.size < handler.precision && handler.buf[0] != '0')
    requires handler.size == 0 ==> digit > 0
    requires handler.size + 1 + place >= 0 && one > 0
    requires divisor as int == Shifted(one, place) > 2 && error as int == Shifted(1, -place)
    requires Split(f, one, place, DigitsValue(handler.Digits() + [CharOf(digit)]), remainder as int)
    modifies handler`size, handler`exp10, handler.buf
    ensures handler.Valid() && handler.size > 0 && handler.buf[0] != '0'
    ensures handler.Outcome(r, f, one, place, old(handler.size) + 1 + place, old(handler.exp10))
    ensures r == More ==> handler.size == old(handler.size) + 1 && (place >= 0 || error < remainder)
    ensures r == More ==> Split(f, one, place, DigitsValue(handler.Digits()), remainder as int)
  {
    assert Pow(10, 0) == 1;
    if place < 0 {
      DivModUnique(Shifted(f, -place), one, DigitsValue(handler.Digits() + [CharOf(digit)]), remainder as int);
    }
    r := handler.OnDigit(CharOf(digit), divisor, remainder, error, place >= 0);
  }

  /** Digits of the part of f before the point, from the most significant one on. */
  method IntegralDigits(ghost f: nat, one: Word, integral: nat, fractional: Word, handler: GenDigitsHandler)
    returns (r: Result, exp: int)
    requires handler.Valid() && handler.size == 0 && handler.buf.Length >= 12
    requires 0 < integral < 0x1_0000_0000 && 2 < one as int && fractional < one
    requires f < U64 && f == integral * one as int + fractional as int
    modifies handler`size, handler`exp10, handler.buf
    ensures handler.Valid() && handler.size > 0 && handler.buf[0] != '0'
    ensures handler.Outcome(r, f, one as int, exp, CountDigits(integral), old(handler.exp10))
    ensures r == More ==> exp == 0 && Split(f, one as int, 0, DigitsValue(handler.Digits()), fractional as int)
  {
    ghost var count := CountDigits(integral);
    IntegralSize(integral);
    SplitStart(f, one as int, integral, fractional as int);
    var left: nat := integral;
    assert Pow(10, 0) == 1;
    r, exp := More, CountDigits(integral);
    while exp > 0
      invariant handler.Valid() && 0 <= exp <= 10 && handler.size + exp == count
      invariant handler.exp10 == old(handler.exp10) && r == More
      invariant if exp == count then left == integral else handler.buf[0] != '0' && handler.size < handler.precision
      invariant left < Pow(10, exp)
      invariant Split(f, one as int, exp, DigitsValue(handler.Digits()), left * one as int + fractional as int)
    {
      exp := exp - 1;
      r, left := IntegralDigit(f, one, integral, left, fractional, exp, handler);
      if r != More {
        return;
      }
    }
  }

  method IntegralDigit(ghost f: nat, one: Word, ghost integral: nat, left: nat, fractional: Word, exp: nat,
                       handler: GenDigitsHandler)
    returns (r: Result, rest: nat)
    requires handler.Valid() && handler.size < 10 && handler.buf.Length >= 12 && exp < 10
    requires 2 < one as int && fractional < one && integral > 0
    requires handler.size == 0 ==> left == integral
    requires handler.size > 0 ==> handler.size < handler.precision && handler.buf[0] != '0'
    requires f < U64 && f == integral * one as int + fractional as int
    requires handler.size + exp + 1 == CountDigits(integral)
    requires Split(f, one as int, exp + 1, DigitsValue(handler.Digits()), left * one as int + fractional as int)
    modifies handler`size, handler`exp10, handler.buf
    ensures handler.Valid() && handler.size > 0 && handler.buf[0] != '0'
    ensures handler.Outcome(r, f, one as int, exp, CountDigits(integral), old(handler.exp10))
    ensures r == More ==>
      && rest < Pow(10, exp)
      && Split(f, one as int, exp, DigitsValue(handler.Digits()), rest * one as int + fractional as int)
  {
    PowerTable(exp);
    DigitsNotNegative(handler.Digits());
    var divisor: nat := POWER_OF_10_64[exp];
    var digit: nat;
    digit, rest := DivmodIntegral(left, divisor);
    IntegralStep(f, one as int, exp, DigitsValue(handler.Digits()), left, digit, rest, integral,
                 fractional as int);
    DigitAppend(handler.Digits(), CharOf(digit));
    var unit := ShiftedSum(one, divisor, 0);
    var remainder := ShiftedSum(one, rest, fractional);
    r := GiveDigit(handler, digit, unit, remainder, 1, f, one as int, exp);
  }

  /** n shifted left, plus what belongs below it. */
  method ShiftedSum(one: Word, n: nat, low: Word) returns (sum: Word)
    requires one > 0 && n * one as int + low as int < U64
    ensures sum as int == n * one as int + low as int
  {
    MulLe(n, n, 1, one as int);
    sum := n as Word * one + low;
  }

  method DivmodIntegral(n: nat, d: nat) returns (quotient: nat, remainder: nat)
    requires d > 0
    ensures n == d * quotient + remainder && remainder < d
  {
    quotient, remainder := n / d, n % d;
  }

  lemma {:induction false} DigitsNotNegative(s: seq<char>)
    requires forall k :: 0 <= k < |s| ==> IsDigit(s[k])
    ensures DigitsValue(s) >= 0
    decreases |s|
  {
    if s != [] {
      DigitsNotNegative(s[..|s| - 1]);
    }
  }

  lemma IntegralSize(n: nat)
    requires 0 < n < U32
    ensures 0 < CountDigits(n) <= 10 && Pow(10, CountDigits(n) - 1) <= n < Pow(10, CountDigits(n))
  {
    CountDigitsBounds(n);
    PowerTable(10);
    if CountDigits(n) > 10 {
      PowGrows(10, 10, CountDigits(n) - 1);
    }
  }

  lemma SplitStart(f: nat, one: nat, integral: nat, fractional: nat)
    requires f == integral * one + fractional && fractional < one
    ensures Split(f, one, CountDigits(integral), 0, integral * one + fractional)
  {
    var count := CountDigits(integral);
    CountDigitsBounds(integral);
    ShiftedIs(one, count);
    ProductBelow(integral, fractional, one, Pow(10, count));
    assert 0 * Shifted(one, count) == 0;
  }

  lemma ProductBelow(integral: nat, fractional: nat, one: nat, p: nat)
    requires integral < p && fractional < one
    ensures integral * one + fractional < one * p
  {
    MulLe(integral + 1, p, one, one);
    Distribute(integral, 1, one);
  }

  /** One integral digit, all of it in 64 bits. */
  lemma IntegralStep(f: nat, one: nat, place: nat, digits: nat, left: nat, digit: nat, rest: nat, integral: nat,
                     fractional: nat)
    requires left == Pow(10, place) * digit + rest
    requires f == integral * one + fractional && fractional < one && integral > 0
    requires place < CountDigits(integral) && 2 < one && rest < Pow(10, place)
    requires Split(f, one, place + 1, digits, left * one + fractional)
    ensures digit <= 9
    ensures left == integral ==> digit > 0
    ensures rest * one + fractional <= f
    ensures 2 < Shifted(one, place) == Pow(10, place) * one <= f
    ensures Split(f, one, place, 10 * digits + digit, rest * one + fractional)
  {
    NextIntegralDigit(f, one, place, digits, digit, rest, fractional);
    PartFits(10 * digits + digit, Shifted(one, place));
    DivisorFits(f, one, integral, fractional, place);
    ShiftedIs(one, place);
    if left == integral {
      HeadDigit(Pow(10, place), digit, rest);
    }
  }

  lemma PartFits(digits: nat, unit: nat)
    ensures digits * unit >= 0
  {
  }

  lemma HeadDigit(d: nat, digit: nat, rest: nat)
    requires rest < d <= d * digit + rest
    ensures digit > 0
  {
  }

  /** The unit of an integral digit fits 64 bits, as f does; the first digit is not zero. */
  lemma DivisorFits(f: nat, one: nat, integral: nat, fractional: nat, place: nat)
    requires f == integral * one + fractional && integral > 0 && place < CountDigits(integral)
    ensures one <= one * Pow(10, place) <= f && Pow(10, place) <= integral
  {
    CountDigitsBounds(integral);
    PowGrows(10, place, CountDigits(integral) - 1);
    UnitFits(one, integral, Pow(10, place));
  }

  lemma UnitFits(one: nat, integral: nat, p: nat)
    requires 0 < p <= integral
    ensures one <= one * p <= integral * one
  {
    MulLe(one, one, p, integral);
    MulLe(one, one, 1, p);
  }

  /** Digits after the point, until the precision is reached or the error may show. */
  method FractionalDigits(ghost f: nat, one: Word, fractional: Word, handler: GenDigitsHandler, ghost count: nat)
    returns (r: Result, exp: int)
    requires handler.Valid() && 0 < handler.size == count <= 10 && handler.buf.Length >= 30
    requires handler.size < handler.precision && handler.buf[0] != '0'
    requires 2 < one as int <= 0x1000_0000_0000_0000 && fractional < one
    requires Split(f, one as int, 0, DigitsValue(handler.Digits()), fractional as int)
    modifies handler`size, handler`exp10, handler.buf
    ensures r != More && handler.Valid() && handler.size > 0 && handler.buf[0] != '0'
    ensures handler.Outcome(r, f, one as int, exp, count, old(handler.exp10))
  {
    var left, error := fractional, 1 as Word;
    exp := 0;
    while true
      invariant -18 <= exp <= 0 && handler.Valid() && handler.size + exp == count
      invariant handler.size < handler.precision && handler.buf[0] != '0' && handler.exp10 == old(handler.exp10)
      invariant left < one && error < one && error as int == Shifted(1, -exp)
      invariant Split(f, one as int, exp, DigitsValue(handler.Digits()), left as int)
      decreases 18 + exp
    {
      ghost var before := left;
      var digit: nat;
      digit, left := TenfoldDivmod(left, one);
      error := error * 10;
      NextFractionalDigit(f, one as int, exp, DigitsValue(handler.Digits()), before as int, digit, left as int);
      DigitAppend(handler.Digits(), CharOf(digit));
      exp := exp - 1;
      r := GiveDigit(handler, digit, one, left, error, f, one as int, exp);
      if r != More {
        return;
      }
      FewSteps(-exp);
    }
  }

  method TenfoldDivmod(fractional: Word, one: Word) returns (digit: nat, rest: Word)
    requires fractional < one <= 0x1000_0000_0000_0000
    ensures 10 * fractional as int == digit * one as int + rest as int && rest < one
  {
    var n := fractional * 10;
    digit, rest := (n / one) as int, n % one;
  }

  lemma FewSteps(k: nat)
    requires Shifted(1, k) < 0x1000_0000_0000_0000
    ensures k <= 18
  {
    ShiftedIs(1, k);
    PowerTable(19);
    if k > 18 {
      PowGrows(10, 19, k);
    }
  }

  // ----- The whole algorithm -----

  /** What the caller has scaled the value to: at least 1, with between 32 and 60 bits of fraction. */
  predicate Scaled(value: Fp) {
    && -60 <= value.e <= -32
    && Pow(2, -value.e) <= value.f < U64
  }

  lemma OneFits(e: nat)
    requires 32 <= e <= 60
    ensures 0x1_0000_0000 <= Pow(2, e) <= 0x1000_0000_0000_0000
  {
    assert Pow(2, 8) == 0x100 && Pow(2, 6) == 0x40;
    PowAdd(2, 8, 8);
    PowAdd(2, 8, 6);
    PowAdd(2, 16, 16);
    PowAdd(2, 14, 14);
    PowAdd(2, 32, 28);
    PowGrows(2, 32, e);
    PowGrows(2, e, 60);
  }

  /** The parts of a scaled value: the integral one fits 32 bits. */
  method Parts(value: Fp) returns (one: Word, integral: nat, fractional: Word)
    requires Scaled(value)
    ensures one as int == Pow(2, -value.e) && 0x1_0000_0000 <= one as int <= 0x1000_0000_0000_0000
    ensures value.f == integral * one as int + fractional as int && fractional < one
    ensures 0 < integral < U32
  {
    OneFits(-value.e);
    one := Pow(2, -value.e) as Word;
    integral, fractional := SplitAt(value.f as Word, one);
    IntegralPart(value.f, one as int, integral, fractional as int);
  }

  method SplitAt(f: Word, one: Word) returns (integral: nat, fractional: Word)
    requires one > 0
    ensures f as int == one as int * integral + fractional as int && fractional < one
  {
    integral, fractional := (f / one) as int, f % one;
  }

  lemma IntegralPart(f: nat, one: nat, integral: nat, fractional: nat)
    requires f == one * integral + fractional && fractional < one <= f < U64
    requires 0x1_0000_0000 <= one
    ensures 0 < integral < U32
  {
    if integral >= 0x1_0000_0000 {
      MulLe(0x1_0000_0000, one, 0x1_0000_0000, integral);
    }
  }

  /** Enough precision to write at least one digit. */
  method DigitsOf(value: Fp, one: Word, integral: nat, fractional: Word, handler: GenDigitsHandler)
    returns (r: Result, exp: int)
    requires handler.Valid() && handler.size == 0 && handler.buf.Length >= 30
    requires 0 < integral < 0x1_0000_0000 && 2 < one as int <= 0x1000_0000_0000_0000 && fractional < one
    requires value.f < U64 && value.f == integral * one as int + fractional as int
    modifies handler`size, handler`exp10, handler.buf
    ensures r != More && handler.Valid() && handler.size > 0 && handler.buf[0] != '0'
    ensures handler.Outcome(r, value.f, one as int, exp, CountDigits(integral), old(handler.exp10))
    ensures r == Error <==> Blocked(value.f, one as int, CountDigits(integral) - Target(handler.precision))
    ensures r == Done ==> AllCorrectAt(value.f, 1, one as int, exp,
                                       DigitsValue(handler.Digits()) * Pow(10, handler.exp10 - old(handler.exp10)))
  {
    IntegralSize(integral);
    r, exp := IntegralDigits(value.f, one, integral, fractional, handler);
    if r == More {
      r, exp := FractionalDigits(value.f, one, fractional, handler, CountDigits(integral));
    }
    if r == Done {
      WholeIntervalCorrect(value.f, 1, one as int, exp,
                           DigitsValue(handler.Digits()) * Pow(10, handler.exp10 - old(handler.exp10)));
    }
    ErrorIsBlocked(handler, r, value.f, one as int, exp, CountDigits(integral), old(handler.exp10));
  }

  lemma ErrorIsBlocked(handler: GenDigitsHandler, r: Result, f: nat, one: nat, exp: int, count: nat, exp10: int)
    requires one > 0 && r != More && handler.Outcome(r, f, one, exp, count, exp10)
    ensures r == Error <==> Blocked(f, one, count - Target(handler.precision))
  {
    if r == Error && Lost(f, one, exp) {
      LostBelow(f, one, exp, count - Target(handler.precision));
    }
  }

  /** No digit at that place is right for the whole interval, or none is looked for any more. */
  ghost predicate Blocked(f: nat, one: nat, place: int)
    requires one > 0
  {
    Lost(f, one, place) || UndecidedAt(f, one, place)
  }

  /** Too near to half of ten units for what a tenth of f, known to within 10, can tell. */
  predicate NearHalf(f: nat, unit: nat) {
    -20 < unit - 2 * (f / 10) < 20
  }

  lemma TenthDirection(divisor: Word, f: nat)
    requires f / 10 < divisor as int && 20 < divisor as int && f < U64
    ensures var unit := 10 * divisor as int;
      match GetRoundDirection(divisor, (f / 10) as Word, 10)
      case Down => WithinHalf(f, 1, unit, 0) && !NearHalf(f, divisor as int)
      case Up => WithinHalf(f, 1, unit, 1) && !NearHalf(f, divisor as int)
      case Unknown => NearHalf(f, divisor as int)
  {
  }

  /** The precision asked for ends before the first digit: nothing, or one digit, decides. */
  method NoDigitsOf(value: Fp, one: Word, integral: nat, fractional: Word, handler: GenDigitsHandler)
    returns (r: Result)
    requires handler.Valid() && handler.size == 0 && handler.buf.Length >= 1 && handler.precision <= 0
    requires 0 < integral < 0x1_0000_0000 && 0x1_0000_0000 <= one as int && fractional < one
    requires value.f < U64 && value.f == integral * one as int + fractional as int
    modifies handler`size, handler.buf
    ensures r != More && handler.Valid() && (r == Error ==> handler.size == 0)
    ensures r == Error <==>
      handler.precision == 0 && NearHalf(value.f, Shifted(one as int, CountDigits(integral) - 1))
    ensures r == Done ==> handler.size == if handler.precision < 0 then 0 else 1
    ensures r == Done ==> AllCorrectAt(value.f, 1, one as int, CountDigits(integral) - handler.precision,
                                       DigitsValue(handler.Digits()))
  {
    var exp := CountDigits(integral);
    SizeOfValue(value.f, one as int, integral, fractional as int);
    IntegralSize(integral);
    if handler.precision < 0 {
      FarBelow(value.f, one as int, exp, -handler.precision);
      r := Done;
    } else {
      r := ZeroOrOne(value.f, one, exp, handler);
    }
    if r == Done {
      WholeIntervalCorrect(value.f, 1, one as int, exp - handler.precision, DigitsValue(handler.Digits()));
    }
  }

  method ZeroOrOne(f: nat, one: Word, exp: nat, handler: GenDigitsHandler) returns (r: Result)
    requires handler.Valid() && handler.size == 0 && handler.buf.Length >= 1
    requires 0 < exp <= 20 && 0x1_0000_0000 <= one as int && f < U64
    requires Shifted(one as int, exp - 1) <= f < Shifted(one as int, exp)
    modifies handler`size, handler.buf
    ensures r != More && handler.Valid() && handler.size == if r == Error then 0 else 1
    ensures r == Error <==> NearHalf(f, Shifted(one as int, exp - 1))
    ensures r == Done ==> WithinHalf(f, 1, Shifted(one as int, exp), DigitsValue(handler.Digits()))
  {
    TableUnit(one as int, exp - 1);
    ShiftedGrows(one as int, exp - 1);
    var divisor := ShiftedSum(one, POWER_OF_10_64[exp - 1], 0);
    TenthDirection(divisor, f);
    var dir := GetRoundDirection(divisor, (f / 10) as Word, 10);
    if dir == Unknown {
      return Error;
    }
    handler.buf[handler.size] := if dir == Up then '1' else '0';
    handler.size := handler.size + 1;
    assert handler.Digits() == [handler.buf[0]];
    assert handler.Digits()[..0] == [];
    return Done;
  }

  lemma TableUnit(one: nat, place: nat)
    requires place < |POWER_OF_10_64|
    ensures POWER_OF_10_64[place] * one == Shifted(one, place)
  {
    PowerTable(place);
    ShiftedIs(one, place);
    SameProduct(POWER_OF_10_64[place], Pow(10, place), one);
  }

  lemma SameProduct(p: int, q: int, x: int)
    requires p == q
    ensures p * x == x * q
  {
  }

  lemma {:induction false} ShiftedGrows(x: nat, k: nat)
    ensures x <= Shifted(x, k)
    decreases k
  {
    if k > 0 {
      ShiftedGrows(x, k - 1);
    }
  }

  /** Two places above the leading digit a value rounds to nothing. */
  lemma {:induction false} FarBelow(f: nat, one: nat, count: nat, k: nat)
    requires f < Shifted(one, count) && k > 0 && one > 0
    ensures WithinHalf(f, 1, Shifted(one, count + k), 0)
    decreases k
  {
    if k > 1 {
      FarBelow(f, one, count, k - 1);
    }
  }

  /** The number of digits f / one has before the point. */
  predicate HasIntegralDigits(f: nat, one: nat, count: nat) {
    count > 0 && Shifted(one, count - 1) <= f < Shifted(one, count)
  }

  /** A fixed precision counts from the decimal point, not from the first digit. */
  function Adjusted(fixed: bool, precision: int, exp10: int, count: nat): int {
    if fixed then precision + count + exp10 else precision
  }

  /** When there is no answer; `precision` is the adjusted one. */
  ghost predicate GivesUp(f: nat, one: nat, fixed: bool, precision: int, count: nat)
    requires one > 0 && count > 0
  {
    if fixed && precision <= 0 then
      precision == 0 && NearHalf(f, Shifted(one, count - 1))
    else
      Blocked(f, one, count - Target(precision))
  }

  /**
   * The digits written and their place, for every number the value may stand for. A fixed format
   * ends at the decimal place asked for, without a digit where that is more than one place above
   * the first one; the others have the number of significant digits asked for, and say in exp10
   * whether rounding made them one digit longer.
   */
  ghost predicate Correct(f: nat, one: nat, fixed: bool, precision: int, exp10: int, count: nat, digits: seq<char>,
                          newExp10: int, exp: int)
  {
    var adjusted := Adjusted(fixed, precision, exp10, count);
    && (forall k :: 0 <= k < |digits| ==> IsDigit(digits[k]))
    && (fixed ==> newExp10 == exp10 && AllCorrectAt(f, 1, one, -(precision + exp10), DigitsValue(digits)))
    && if fixed && adjusted <= 0 then
         |digits| == (if adjusted < 0 then 0 else 1) && exp == count
       else
         && exp == count - Target(adjusted) && digits != [] && digits[0] != '0'
         && (fixed ==> |digits| == adjusted || (|digits| == adjusted + 1 && DigitsValue(digits) == Pow(10, adjusted)))
         && (!fixed ==>
              && |digits| == Target(precision) && 0 <= newExp10 - exp10 <= 1
              && (newExp10 > exp10 ==> DigitsValue(digits) == Pow(10, |digits| - 1))
              && AllCorrectAt(f, 1, one, exp, DigitsValue(digits) * Pow(10, newExp10 - exp10)))
  }

  /** What a call leaves: the one answer there is, or none because there is none. */
  ghost predicate Delivered(handler: GenDigitsHandler, r: Result, exp: int, f: nat, one: nat, precision: int,
                            exp10: int, count: nat)
    requires handler.Valid() && one > 0 && count > 0
    reads handler, handler.buf
  {
    && handler.precision == Adjusted(handler.fixed, precision, exp10, count)
    && (r == Error <==> GivesUp(f, one, handler.fixed, handler.precision, count))
    && (r == Error ==> exp + handler.size == count && handler.exp10 == exp10)
    && (r == Done ==>
         Correct(f, one, handler.fixed, precision, exp10, count, handler.Digits(), handler.exp10, exp))
  }

  /** With some error, at most one multiple of the unit is right for the whole interval. */
  lemma AllCorrectUnique(f: nat, scale: nat, place: int, p: int, q: int)
    requires AllCorrectAt(f, 1, scale, place, p) && AllCorrectAt(f, 1, scale, place, q)
    ensures p == q
  {
    var unit := Shifted(scale, place);
    if p < q {
      NotBoth(f, Pow(10, Plus(-place)), unit, p, q);
    } else if q < p {
      NotBoth(f, Pow(10, Plus(-place)), unit, q, p);
    }
  }

  lemma NotBoth(f: nat, scale: nat, unit: nat, p: int, q: int)
    requires scale > 0 && p < q && AllWithin(f, 1, scale, unit, p)
    ensures !AllWithin(f, 1, scale, unit, q)
  {
    var low, high := (f - 1) as real, (f + 1) as real;
    var s := scale as real;
    assert CorrectFor(high, scale, unit, p);
    assert high * s == low * s + 2.0 * s by {
      assert high == low + 2.0;
    }
    Distribute(p, q - p, unit);
    MulLe(1, q - p, unit, unit);
    assert (q * unit) as real >= (p * unit) as real + unit as real;
    assert AllWithin(f, 1, scale, unit, q) ==> CorrectFor(low, scale, unit, q);
  }

  /** There is one answer: what `Correct` says leaves no choice. */
  lemma CorrectUnique(f: nat, one: nat, fixed: bool, precision: int, exp10: int, count: nat,
                      a: seq<char>, a10: int, ea: int, b: seq<char>, b10: int, eb: int)
    requires Correct(f, one, fixed, precision, exp10, count, a, a10, ea)
    requires Correct(f, one, fixed, precision, exp10, count, b, b10, eb)
    ensures a == b && a10 == b10 && ea == eb
  {
    assert Pow(10, 0) == 1 && Pow(10, 1) == 10;
    DigitsBelow(a);
    DigitsBelow(b);
    if fixed {
      AllCorrectUnique(f, one, -(precision + exp10), DigitsValue(a), DigitsValue(b));
    } else {
      AllCorrectUnique(f, one, ea, DigitsValue(a) * Pow(10, a10 - exp10), DigitsValue(b) * Pow(10, b10 - exp10));
      assert Pow(10, |a|) == 10 * Pow(10, |a| - 1);
    }
    SameDigitStrings(a, b);
  }

  method GrisuGenDigits(value: Fp, error: Word, handler: GenDigitsHandler) returns (r: Result, exp: int)
    requires Scaled(value) && error == 1
    requires handler.Valid() && handler.size == 0 && handler.buf.Length >= 30
    modifies handler, handler.buf
    ensures r != More && handler.Valid()
    ensures var one := Pow(2, -value.e);
      var count := CountDigits(value.f / one);
      && HasIntegralDigits(value.f, one, count)
      && Delivered(handler, r, exp, value.f, one, old(handler.precision), old(handler.exp10), count)
  {
    var one, integral, fractional := Parts(value);
    exp := CountDigits(integral);
    ghost var precision, exp10 := handler.precision, handler.exp10;
    DivModUnique(value.f, one as int, integral, fractional as int);
    SizeOfValue(value.f, one as int, integral, fractional as int);
    if handler.fixed {
      handler.precision := handler.precision + exp + handler.exp10;
      if handler.precision <= 0 {
        r := NoDigitsOf(value, one, integral, fractional, handler);
        NoDigitsDelivered(handler, r, value.f, one as int, precision, exp10, exp);
        return;
      }
    }
    r, exp := DigitsOf(value, one, integral, fractional, handler);
    DigitsDelivered(handler, r, exp, value.f, one as int, precision, exp10, CountDigits(integral));
  }

  lemma NoDigitsDelivered(handler: GenDigitsHandler, r: Result, f: nat, one: nat, precision: int, exp10: int,
                          count: nat)
    requires handler.Valid() && handler.fixed && handler.exp10 == exp10 && one > 0 && count > 0
    requires handler.precision == precision + count + exp10 <= 0 && r != More
    requires r == Error <==> handler.precision == 0 && NearHalf(f, Shifted(one, count - 1))
    requires handler.size == if r == Error || handler.precision < 0 then 0 else 1
    requires r == Done ==> AllCorrectAt(f, 1, one, count - handler.precision, DigitsValue(handler.Digits()))
    ensures Delivered(handler, r, count, f, one, precision, exp10, count)
  {
    assert count - handler.precision == -(precision + exp10);
  }

  lemma DigitsDelivered(handler: GenDigitsHandler, r: Result, exp: int, f: nat, one: nat, precision: int, exp10: int,
                        count: nat)
    requires handler.Valid() && handler.size > 0 && handler.buf[0] != '0' && one > 0 && count > 0
    requires handler.precision == Adjusted(handler.fixed, precision, exp10, count)
    requires (handler.fixed ==> handler.precision > 0) && r != More
    requires handler.Outcome(r, f, one, exp, count, exp10)
    requires r == Error <==> Blocked(f, one, count - Target(handler.precision))
    requires r == Done ==>
      AllCorrectAt(f, 1, one, exp, DigitsValue(handler.Digits()) * Pow(10, handler.exp10 - exp10))
    ensures Delivered(handler, r, exp, f, one, precision, exp10, count)
  {
    assert Pow(10, 0) == 1;
    assert handler.Digits()[0] == handler.buf[0];
  }

  lemma SizeOfValue(f: nat, one: nat, integral: nat, fractional: nat)
    requires f == integral * one + fractional && fractional < one && integral > 0
    ensures Shifted(one, CountDigits(integral) - 1) <= f < Shifted(one, CountDigits(integral))
  {
    SplitStart(f, one, integral, fractional);
    DivisorFits(f, one, integral, fractional, CountDigits(integral) - 1);
    ShiftedIs(one, CountDigits(integral) - 1);
  }
}
