/** class bigint of tools/unpacker/fmt/format-inl.h. */
module Bigints {
  import opened Powers
  import opened Wrappers
  import opened Bigits
  import opened Convolution

  function Sign(x: int): int {
    if x < 0 then -1 else if x > 0 then 1 else 0
  }

  // ----- Carries -----

  /** One round of a multiplication: `x * value + carry` is split into a digit and the next carry. */
  lemma CarryStep(done: int, p: int, carry: int, was: int, x: int, value: int, digit: int, carry': int)
    requires done + carry * p == was * value
    requires x * value + carry == digit + BASE * carry'
    ensures done + p * digit + carry' * (BASE * p) == (was + p * x) * value
  {
    Distribute(was, p * x, value);
    assert (p * x) * value == p * (x * value);
    assert p * (digit + BASE * carry') == p * digit + carry' * (BASE * p);
    assert p * (x * value + carry) == p * (x * value) + carry * p;
  }

  lemma MulBound(x: int, y: int, xm: int, ym: int)
    requires 0 <= x <= xm && 0 <= y <= ym
    ensures 0 <= x * y <= xm * ym
  {
    MulLe(x, xm, y, ym);
  }

  /** The two halves of a shifted digit: what stays, and what moves to the next one. */
  lemma ShiftDigit(x: Bigit, t: nat, u: nat, carry: nat)
    requires t * u == BASE && carry < t && u > 0
    ensures (x * t) % BASE + carry < BASE && x / u < t
    ensures x * t + carry == ((x * t) % BASE + carry) + BASE * (x / u)
  {
    var q, r := x / u, x % u;
    assert x == q * u + r;
    assert x * t == q * BASE + r * t by {
      Distribute(q * u, r, t);
      assert (q * u) * t == q * (t * u);
    }
    assert 0 <= r * t && (r + 1) * t <= u * t by {
      MulLe(r + 1, u, t, t);
    }
    Distribute(r, 1, t);
    DivModUnique(x * t, BASE, q, r * t);
    if q >= t {
      MulLe(t, q, u, u);
    }
  }

  function Compared(lhs: nat, lhsSize: nat, rhs: nat, rhsSize: nat): int {
    if lhs == rhs then Sign(lhsSize - rhsSize) else Sign(lhs - rhs)
  }

  lemma LongerIsGreater(a: seq<Bigit>, ea: nat, b: seq<Bigit>, eb: nat)
    requires a != [] && b != []
    requires |a| + ea > |b| + eb ==> Top(a) != 0
    ensures |a| + ea > |b| + eb ==> Value(a, ea) > Value(b, eb)
  {
    if |a| + ea > |b| + eb {
      ValueBounds(a, ea);
      ValueBounds(b, eb);
      PowGrows(BASE, |b| + eb, |a| + ea - 1);
    }
  }

  lemma TwoShorter(a: seq<Bigit>, ea: nat, b: seq<Bigit>, eb: nat, c: seq<Bigit>, ec: nat)
    requires c != [] && Top(c) != 0
    requires |a| + ea + 1 < |c| + ec && |b| + eb + 1 < |c| + ec
    ensures Value(a, ea) + Value(b, eb) < Value(c, ec)
  {
    var n := |c| + ec - 2;
    ValueBounds(a, ea);
    ValueBounds(b, eb);
    ValueBounds(c, ec);
    PowGrows(BASE, |a| + ea, n);
    PowGrows(BASE, |b| + eb, n);
    BasePowStep(n);
  }

  /** A smaller high part makes a smaller number, whatever the low parts are. */
  lemma HighDecides(a: seq<Bigit>, ea: nat, b: seq<Bigit>, eb: nat, p: nat)
    ensures High(a, ea, p) < High(b, eb, p) ==> Value(a, ea) < Value(b, eb)
  {
    HighLow(a, ea, p);
    HighLow(b, eb, p);
    LowBound(a, ea, p);
    if High(a, ea, p) < High(b, eb, p) {
      MulLe(High(a, ea, p) + 1, High(b, eb, p), BasePow(p), BasePow(p));
      Distribute(High(a, ea, p), 1, BasePow(p));
    }
  }

  ghost predicate SameDigitsFrom(a: seq<Bigit>, ea: nat, b: seq<Bigit>, eb: nat, p: nat) {
    forall q: nat :: q >= p ==> Digit(a, ea, q) == Digit(b, eb, q)
  }

  lemma {:induction false} SameHigh(a: seq<Bigit>, ea: nat, b: seq<Bigit>, eb: nat, p: nat)
    requires SameDigitsFrom(a, ea, b, eb, p)
    ensures High(a, ea, p) == High(b, eb, p)
    decreases Max(|a| + ea, |b| + eb) - p
  {
    if p < |a| + ea || p < |b| + eb {
      SameHigh(a, ea, b, eb, p + 1);
      HighStep(a, ea, p);
      HighStep(b, eb, p);
    }
  }

  /** Equal down to the last digit of the shorter one: the longer one has whatever is left. */
  lemma OnlyLengthsLeft(a: seq<Bigit>, ea: nat, b: seq<Bigit>, eb: nat)
    requires a != [] && b != [] && |a| + ea == |b| + eb
    requires SameDigitsFrom(a, ea, b, eb, Max(ea, eb))
    ensures Compared(Value(a, ea), |a|, Value(b, eb), |b|) == Sign(|a| - |b|)
  {
    var q := Max(ea, eb);
    SameHigh(a, ea, b, eb, q);
    HighLow(a, ea, q);
    HighLow(b, eb, q);
  }

  lemma DigitDecides(a: seq<Bigit>, ea: nat, b: seq<Bigit>, eb: nat, p: nat)
    requires SameDigitsFrom(a, ea, b, eb, p + 1)
    ensures Digit(a, ea, p) == Digit(b, eb, p) ==> SameDigitsFrom(a, ea, b, eb, p)
    ensures Digit(a, ea, p) != Digit(b, eb, p) ==>
      Compared(Value(a, ea), |a|, Value(b, eb), |b|) == if Digit(a, ea, p) > Digit(b, eb, p) then 1 else -1
  {
    SameHigh(a, ea, b, eb, p + 1);
    HighStep(a, ea, p);
    HighStep(b, eb, p);
    HighDecides(a, ea, b, eb, p);
    HighDecides(b, eb, a, ea, p);
  }

  /** rhs - lhs1 - lhs2, counted in units of position p. */
  ghost function Gap(lhs1: Bigint, lhs2: Bigint, rhs: Bigint, p: nat): int
    reads lhs1, lhs2, rhs
  {
    High(rhs.bigits, rhs.exp, p) - High(lhs1.bigits, lhs1.exp, p) - High(lhs2.bigits, lhs2.exp, p)
  }

  lemma GapSplit(lhs1: Bigint, lhs2: Bigint, rhs: Bigint, p: nat)
    ensures rhs.V() - lhs1.V() - lhs2.V()
         == Gap(lhs1, lhs2, rhs, p) * BasePow(p)
          + Low(rhs.bigits, rhs.exp, p) - Low(lhs1.bigits, lhs1.exp, p) - Low(lhs2.bigits, lhs2.exp, p)
  {
    HighLow(lhs1.bigits, lhs1.exp, p);
    HighLow(lhs2.bigits, lhs2.exp, p);
    HighLow(rhs.bigits, rhs.exp, p);
    ThreeParts(High(lhs1.bigits, lhs1.exp, p), High(lhs2.bigits, lhs2.exp, p), High(rhs.bigits, rhs.exp, p),
               BasePow(p));
  }

  lemma ThreeParts(a: int, b: int, c: int, p: int)
    ensures (c - a - b) * p == c * p - a * p - b * p
  {
  }

  lemma GapStep(lhs1: Bigint, lhs2: Bigint, rhs: Bigint, p: nat)
    ensures Gap(lhs1, lhs2, rhs, p)
         == rhs.GetBigit(p) + BASE * Gap(lhs1, lhs2, rhs, p + 1) - lhs1.GetBigit(p) - lhs2.GetBigit(p)
    ensures Gap(lhs1, lhs2, rhs, p) < 0 ==> lhs1.V() + lhs2.V() > rhs.V()
    ensures Gap(lhs1, lhs2, rhs, p) > 1 ==> lhs1.V() + lhs2.V() < rhs.V()
  {
    HighStep(lhs1.bigits, lhs1.exp, p);
    HighStep(lhs2.bigits, lhs2.exp, p);
    HighStep(rhs.bigits, rhs.exp, p);
    GapDecides(lhs1, lhs2, rhs, p);
  }

  lemma GapDecides(lhs1: Bigint, lhs2: Bigint, rhs: Bigint, p: nat)
    ensures Gap(lhs1, lhs2, rhs, p) < 0 ==> lhs1.V() + lhs2.V() > rhs.V()
    ensures Gap(lhs1, lhs2, rhs, p) > 1 ==> lhs1.V() + lhs2.V() < rhs.V()
  {
    GapSplit(lhs1, lhs2, rhs, p);
    LowBound(lhs1.bigits, lhs1.exp, p);
    LowBound(lhs2.bigits, lhs2.exp, p);
    LowBound(rhs.bigits, rhs.exp, p);
    Multiples(Gap(lhs1, lhs2, rhs, p), BasePow(p));
  }

  lemma Multiples(gap: int, p: int)
    requires p > 0
    ensures gap < 0 ==> gap * p <= -p
    ensures gap > 1 ==> gap * p >= 2 * p
  {
  }

  lemma GapIsAll(lhs1: Bigint, lhs2: Bigint, rhs: Bigint, p: nat)
    requires p <= lhs1.exp && p <= lhs2.exp && p <= rhs.exp
    ensures rhs.V() - lhs1.V() - lhs2.V() == Gap(lhs1, lhs2, rhs, p) * BasePow(p)
  {
    GapSplit(lhs1, lhs2, rhs, p);
  }

  // ----- Subtraction -----

  function Minus(x: Bigit, y: Bigit, borrow: nat): Bigit
    requires borrow <= 1
  {
    if x >= y + borrow then x - y - borrow else BASE + x - y - borrow
  }

  function Borrows(x: Bigit, y: Bigit, borrow: nat): nat {
    if x >= y + borrow then 0 else 1
  }

  /** In 64 bits the difference wraps around, and its top bit is the borrow. */
  lemma MinusIsWrapped(x: Bigit, y: Bigit, borrow: nat)
    requires borrow <= 1
    ensures (x - y - borrow) % U64 % BASE == Minus(x, y, borrow)
    ensures (x - y - borrow) % U64 / 0x8000_0000_0000_0000 == Borrows(x, y, borrow)
  {
  }

  lemma EvalAround(front: seq<Bigit>, x: Bigit, tail: seq<Bigit>)
    ensures Eval(front + [x] + tail) == Eval(front) + x * BasePow(|front|) + BasePow(|front| + 1) * Eval(tail)
  {
    EvalConcat(front + [x], tail);
    EvalSnoc(front, x);
  }

  lemma EvalUpdate(s: seq<Bigit>, i: nat, d: Bigit, delta: int)
    requires i < |s| && d == s[i] + delta
    ensures Eval(s[i := d]) == Eval(s) + delta * BasePow(i)
  {
    assert s == s[..i] + [s[i]] + s[i + 1..];
    assert s[i := d] == s[..i] + [d] + s[i + 1..];
    EvalAround(s[..i], s[i], s[i + 1..]);
    EvalAround(s[..i], d, s[i + 1..]);
    var x: int := s[i];
    Distribute(x, delta, BasePow(i));
  }

  /** Digits below `i` have had `other` (moved up by o) taken away, and owe a borrow to digit i. */
  ghost predicate BorrowedFrom(was: seq<Bigit>, now: seq<Bigit>, other: seq<Bigit>, o: nat, i: nat, borrow: nat) {
    && i == o + |other| <= |was| == |now|
    && now[i..] == was[i..]
    && Eval(now[..i]) + Eval(other) * BasePow(o) == Eval(was[..i]) + borrow * BasePow(i)
  }

  lemma BorrowStep(was: seq<Bigit>, now: seq<Bigit>, other: seq<Bigit>, o: nat, borrow: nat, y: Bigit)
    requires borrow <= 1 && o + |other| < |was|
    requires BorrowedFrom(was, now, other, o, o + |other|, borrow)
    ensures var i := o + |other|;
      BorrowedFrom(was, now[i := Minus(now[i], y, borrow)], other + [y], o, i + 1, Borrows(now[i], y, borrow))
  {
    var i := o + |other|;
    var next := now[i := Minus(now[i], y, borrow)];
    assert now[i] == now[i..][0] == was[i..][0] == was[i];
    assert next[i + 1..] == now[i..][1..] && was[i + 1..] == was[i..][1..];
    assert next[..i + 1] == now[..i] + [Minus(now[i], y, borrow)];
    EvalSnoc(now[..i], Minus(now[i], y, borrow));
    EvalTake(was, i);
    EvalSnoc(other, y);
    PowAdd(BASE, |other|, o);
    BorrowAlgebra(BasePow(i), was[i], y, borrow, Minus(now[i], y, borrow), Borrows(now[i], y, borrow),
                  Eval(other), BasePow(|other|), BasePow(o));
  }

  lemma BorrowAlgebra(p: int, x: int, y: int, borrow: int, digit: int, borrow': int, e: int, q: int, r: int)
    requires digit == x - y - borrow + BASE * borrow' && p == q * r
    ensures p * digit + (e + q * y) * r == p * x + borrow' * (BASE * p) + e * r - borrow * p
  {
    Distribute(e, q * y, r);
    MulSwap(q, y, r);
    assert p * digit == p * x - p * y - p * borrow + p * (BASE * borrow') by {
      assert p * (x - y - borrow + BASE * borrow') == p * x - p * y - p * borrow + p * (BASE * borrow');
    }
    assert p * (BASE * borrow') == borrow' * (BASE * p);
  }

  /** By how much a stuck borrow misses: the digit keeps BASE - 2 and the next one keeps its unit. */
  function Spill(s: seq<Bigit>, exp: nat, v: nat, p: nat): nat {
    if Low(s, exp, p) < v && Digit(s, exp, p) == 0 then (BASE - 1) * BasePow(p) else 0
  }

  lemma CancelPow(x: int, y: int, p: int)
    requires p > 0
    ensures x * p >= y * p <==> x >= y
  {
    if x >= y {
      assert (x - y) * p >= 0;
      Distribute(x - y, y, p);
    } else {
      AtLeastOnce(y - x, p);
      Distribute(y - x, x, p);
    }
  }

  lemma EnoughDigits(a: seq<Bigit>, ea: nat, b: seq<Bigit>, eb: nat)
    requires a != [] && b != [] && Top(b) != 0 && Value(a, ea) >= Value(b, eb)
    ensures |b| + eb <= |a| + ea
  {
    ValueBounds(a, ea);
    ValueBounds(b, eb);
    if |b| + eb > |a| + ea {
      PowGrows(BASE, |a| + ea, |b| + eb - 1);
    }
  }

  /** A borrow is owed at the other's top exactly when the part below it is too small. */
  lemma BorrowAtTop(was: seq<Bigit>, now: seq<Bigit>, other: seq<Bigit>, o: nat, exp: nat, borrow: nat)
    requires borrow <= 1 && BorrowedFrom(was, now, other, o, o + |other|, borrow)
    requires Value(was, exp) >= Value(other, exp + o)
    ensures var i := o + |other|;
      && (borrow == 1 <==> Low(was, exp, exp + i) < Value(other, exp + o))
      && (borrow == 1 ==> i < |was| && now[i] == was[i] == Digit(was, exp, exp + i))
  {
    var i := o + |other|;
    BorrowMeans(was, now, other, o, borrow);
    OtherValue(other, o, exp);
    LowOfPrefix(was, exp, i);
    CancelPow(Eval(was[..i]), Eval(other) * BasePow(o), BasePow(exp));
    CancelPow(Eval(was), Eval(other) * BasePow(o), BasePow(exp));
    assert was[..|was|] == was;
    if i < |was| {
      assert now[i] == now[i..][0] == was[i..][0] == was[i];
    }
  }

  lemma BorrowMeans(was: seq<Bigit>, now: seq<Bigit>, other: seq<Bigit>, o: nat, borrow: nat)
    requires borrow <= 1 && BorrowedFrom(was, now, other, o, o + |other|, borrow)
    ensures borrow == 1 <==> Eval(was[..o + |other|]) < Eval(other) * BasePow(o)
  {
    EvalBound(now[..o + |other|]);
    BorrowOrNot(Eval(now[..o + |other|]), Eval(other) * BasePow(o), Eval(was[..o + |other|]), borrow,
                BasePow(o + |other|));
  }

  lemma BorrowOrNot(low: int, taken: int, from: int, borrow: nat, p: int)
    requires borrow <= 1 && 0 <= low < p && low + taken == from + borrow * p
    ensures borrow == 1 <==> from < taken
  {
    if borrow == 1 {
      assert low + taken == from + p;
    }
  }

  lemma OtherValue(other: seq<Bigit>, o: nat, exp: nat)
    ensures Value(other, exp + o) == Eval(other) * BasePow(o) * BasePow(exp)
  {
    PowAdd(BASE, o, exp);
    MulAssoc(Eval(other), BasePow(o), BasePow(exp));
  }

  lemma LowOfPrefix(s: seq<Bigit>, exp: nat, i: nat)
    requires i <= |s|
    ensures Low(s, exp, exp + i) == Eval(s[..i]) * BasePow(exp)
  {
    assert s[..|s|] == s;
  }

  lemma Subtracted(was: seq<Bigit>, mid: seq<Bigit>, now: seq<Bigit>, other: seq<Bigit>, o: nat, exp: nat,
                   borrow: nat)
    requires borrow <= 1 && BorrowedFrom(was, mid, other, o, o + |other|, borrow)
    requires Value(was, exp) >= Value(other, exp + o)
    requires borrow == 0 ==> now == mid
    requires borrow == 1 ==> var i := o + |other|;
      i < |mid| && now == mid[i := if mid[i] == 0 then BASE - 2 else mid[i] - 1]
    ensures Value(now, exp)
         == Value(was, exp) - Value(other, exp + o) + Spill(was, exp, Value(other, exp + o), exp + o + |other|)
  {
    var i := o + |other|;
    BorrowAtTop(was, mid, other, o, exp, borrow);
    var miss := if borrow == 1 && mid[i] == 0 then BASE - 1 else 0;
    var taken, top := WholeDifference(was, mid, other, o, borrow);
    TopPaid(mid, now, i, borrow, miss, Eval(was), taken, top);
    OtherValue(other, o, exp);
    PowAdd(BASE, i, exp);
    ScaleDifference(Eval(was), taken, miss, top, BasePow(exp));
  }

  lemma TopPaid(mid: seq<Bigit>, now: seq<Bigit>, i: nat, borrow: nat, miss: nat, from: int, taken: int,
                top: nat)
    requires borrow <= 1 && top == BasePow(i) && Eval(mid) + taken == from + borrow * top
    requires borrow == 0 ==> now == mid && miss == 0
    requires borrow == 1 ==>
      && i < |mid| && now == mid[i := if mid[i] == 0 then BASE - 2 else mid[i] - 1]
      && miss == if mid[i] == 0 then BASE - 1 else 0
    ensures Eval(now) == from - taken + miss * top
  {
    var step: int := miss - borrow;
    MidStep(mid, now, i, borrow, miss, step);
    PaidBorrow(Eval(mid), taken, from, borrow, step, miss, top);
  }

  lemma MidStep(mid: seq<Bigit>, now: seq<Bigit>, i: nat, borrow: nat, miss: nat, step: int)
    requires borrow <= 1 && step == miss - borrow
    requires borrow == 0 ==> now == mid && miss == 0
    requires borrow == 1 ==>
      && i < |mid| && now == mid[i := if mid[i] == 0 then BASE - 2 else mid[i] - 1]
      && miss == if mid[i] == 0 then BASE - 1 else 0
    ensures Eval(now) == Eval(mid) + step * BasePow(i)
  {
    if borrow == 1 {
      assert mid[i] + step == if mid[i] == 0 then BASE - 2 else mid[i] - 1;
    }
    SteppedEval(mid, now, i, step);
  }

  lemma SteppedEval(s: seq<Bigit>, t: seq<Bigit>, i: nat, step: int)
    requires (step == 0 && t == s) || (i < |s| && 0 <= s[i] + step < BASE && t == s[i := s[i] + step])
    ensures Eval(t) == Eval(s) + step * BasePow(i)
  {
    if step != 0 {
      EvalUpdate(s, i, t[i], step);
    }
  }

  lemma PaidBorrow(mid: int, taken: int, from: int, borrow: int, step: int, miss: int, p: int)
    requires mid + taken == from + borrow * p && step == miss - borrow
    ensures mid + step * p == from - taken + miss * p
  {
    Distribute(miss, -borrow, p);
  }

  lemma WholeDifference(was: seq<Bigit>, mid: seq<Bigit>, other: seq<Bigit>, o: nat, borrow: nat)
    returns (taken: nat, top: nat)
    requires BorrowedFrom(was, mid, other, o, o + |other|, borrow)
    ensures taken == Eval(other) * BasePow(o) && top == BasePow(o + |other|)
    ensures Eval(mid) + taken == Eval(was) + borrow * top
  {
    var i := o + |other|;
    taken, top := Eval(other) * BasePow(o), BasePow(i);
    assert was == was[..i] + was[i..] && mid == mid[..i] + was[i..];
    EvalConcat(was[..i], was[i..]);
    EvalConcat(mid[..i], was[i..]);
  }

  lemma ScaleDifference(a: int, b: int, miss: int, r: int, p: int)
    ensures (a - b + miss * r) * p == a * p - b * p + miss * (r * p)
  {
    Distribute(a - b, miss * r, p);
    Distribute(a, -b, p);
    MulAssoc(miss, r, p);
  }

  /** With at most one digit above the divisor's top, and that one not zero, nothing spills. */
  lemma NoSpill(s: seq<Bigit>, exp: nat, v: nat, p: nat)
    requires s != [] && |s| + exp <= p + 1 && Value(s, exp) >= v
    requires |s| + exp == p + 1 ==> Top(s) != 0
    ensures Spill(s, exp, v, p) == 0
  {
  }

  /** Taking 1 from pow(2, 64), two digits longer, meets a zero digit and leaves too much. */
  lemma StuckBorrow()
    ensures Value([0, 0, 1], 0) == BASE * BASE && Value([1], 0) == 1
    ensures Spill([0, 0, 1], 0, Value([1], 0), 1) == (BASE - 1) * BASE
  {
    EvalOne(1);
    EvalOne(0);
    EvalConcat([0], [1]);
    EvalConcat([0], [0, 1]);
    assert [0, 1] == [0] + [1] && [0, 0, 1] == [0] + [0, 1] && [0, 0, 1][..1] == [0];
    assert BasePow(1) == BASE * BasePow(0);
  }

  lemma PositiveIsNormal(s: seq<Bigit>, exp: nat)
    requires s != [] && (|s| == 1 || Top(s) != 0) && Value(s, exp) > 0
    ensures Top(s) != 0
  {
    if Top(s) == 0 {
      assert s == [0];
      EvalOne(0);
    }
  }

  // ----- Where the comparison is exact -----

  /** a is b written with a lower exponent, and zeros in the digits that makes room for. */
  predicate Padded(a: seq<Bigit>, ea: nat, b: seq<Bigit>, eb: nat) {
    ea < eb && a == seq(eb - ea, _ => 0) + b
  }

  lemma PaddedEqual(a: seq<Bigit>, ea: nat, b: seq<Bigit>, eb: nat)
    requires Padded(a, ea, b, eb)
    ensures Value(a, ea) == Value(b, eb)
  {
    assert a[eb - ea..] == b;
    MovedUp(a, b, eb - ea, ea);
  }

  lemma {:induction false} SameDigits(a: seq<Bigit>, b: seq<Bigit>)
    requires |a| == |b| && Eval(a) == Eval(b)
    ensures a == b
    decreases |a|
  {
    if a != [] {
      SameDigits(a[1..], b[1..]);
      assert a == [a[0]] + a[1..] && b == [b[0]] + b[1..];
    }
  }

  /** Equal normal numbers differ in nothing but zeros at the low end. */
  lemma EqualIsPadded(a: seq<Bigit>, ea: nat, b: seq<Bigit>, eb: nat)
    requires a != [] && b != [] && Top(a) != 0 && Top(b) != 0
    requires Value(a, ea) == Value(b, eb) && ea <= eb
    ensures Padded(a, ea, b, eb) || (a == b && ea == eb)
  {
    SameLength(a, ea, b, eb);
    var padded: seq<Bigit> := seq(eb - ea, _ => 0) + b;
    assert padded[eb - ea..] == b;
    MovedUp(padded, b, eb - ea, ea);
    CancelPow(Eval(a), Eval(padded), BasePow(ea));
    CancelPow(Eval(padded), Eval(a), BasePow(ea));
    SameDigits(a, padded);
    assert ea == eb ==> padded == b;
  }

  /** `compare` is the sign of the difference unless one operand is the other with zeros at its low end. */
  lemma CompareIsSign(a: seq<Bigit>, ea: nat, b: seq<Bigit>, eb: nat)
    requires a != [] && b != [] && Top(a) != 0 && Top(b) != 0
    ensures Compared(Value(a, ea), |a|, Value(b, eb), |b|) == Sign(Value(a, ea) - Value(b, eb))
       <==> !Padded(a, ea, b, eb) && !Padded(b, eb, a, ea)
    ensures a[0] != 0 && b[0] != 0 ==> !Padded(a, ea, b, eb) && !Padded(b, eb, a, ea)
  {
    if Padded(a, ea, b, eb) {
      PaddedEqual(a, ea, b, eb);
    } else if Padded(b, eb, a, ea) {
      PaddedEqual(b, eb, a, ea);
    } else if Value(a, ea) == Value(b, eb) {
      if ea <= eb {
        EqualIsPadded(a, ea, b, eb);
      } else {
        EqualIsPadded(b, eb, a, ea);
      }
    }
  }

  /** pow(2, 32) as one digit with exponent 1, and as two digits with exponent 0. */
  lemma EqualButGreater()
    ensures Padded([0, 1], 0, [1], 1) && Value([0, 1], 0) == BASE == Value([1], 1)
    ensures Compared(Value([0, 1], 0), |[0, 1]|, Value([1], 1), |[1]|) == 1
    ensures Compared(Value([1], 1), |[1]|, Value([0, 1], 0), |[0, 1]|) == -1
  {
    EvalConcat([0], [1]);
    EvalOne(0);
    EvalOne(1);
    assert [0, 1] == seq(1, _ => 0) + [1] == [0] + [1] && BasePow(1) == BASE * BasePow(0);
  }

  /** A divisor that is not the dividend with zeros below stores no more digits than an equal dividend. */
  lemma TieBroken(a: seq<Bigit>, ea: nat, b: seq<Bigit>, eb: nat)
    requires a != [] && (|a| == 1 || Top(a) != 0) && b != [] && Top(b) != 0
    ensures Padded(b, eb, a, ea) <==> Value(a, ea) == Value(b, eb) && |a| < |b|
    ensures b[0] != 0 ==> !Padded(b, eb, a, ea)
  {
    if Padded(b, eb, a, ea) {
      PaddedEqual(b, eb, a, ea);
    } else if Value(a, ea) == Value(b, eb) && |a| < |b| {
      ValueBounds(b, eb);
      PositiveIsNormal(a, ea);
      SameLength(a, ea, b, eb);
      EqualIsPadded(b, eb, a, ea);
    }
  }

  /** Once aligned, ties are broken the right way. */
  lemma AlignedComparable(a: seq<Bigit>, ea: nat, b: seq<Bigit>, eb: nat)
    requires a != [] && (|a| == 1 || Top(a) != 0) && b != [] && Top(b) != 0 && ea <= eb
    ensures |a| + ea > |b| + eb ==> Top(a) != 0
    ensures Value(a, ea) == Value(b, eb) ==> |a| >= |b|
  {
    TieBroken(a, ea, b, eb);
  }

  lemma SameLength(a: seq<Bigit>, ea: nat, b: seq<Bigit>, eb: nat)
    requires a != [] && b != [] && Top(a) != 0 && Top(b) != 0
    requires Value(a, ea) == Value(b, eb)
    ensures |a| + ea == |b| + eb
  {
    LongerIsGreater(a, ea, b, eb);
    LongerIsGreater(b, eb, a, ea);
  }

  const MAX_POW10 := 0x4000_0000 // the bit mask is an int

  lemma DivTwice(e: nat, b: nat)
    requires b > 0
    ensures e / (2 * b) == e / b / 2
  {
    var q, r := e / b, e % b;
    var half, bit := q / 2, q % 2;
    assert e == q * b + r;
    assert q * b == half * (2 * b) + bit * b by {
      Distribute(half * 2, bit, b);
      MulAssoc(half, 2, b);
    }
    DivModUnique(e, 2 * b, half, bit * b + r);
  }

  /** The leading bits of e, all but the last k. */
  function Prefix(e: nat, k: nat): nat {
    e / Pow(2, k)
  }

  lemma TopBit(e: nat, k: nat)
    requires Pow(2, k) <= e < 2 * Pow(2, k)
    ensures Pow(5, Prefix(e, k)) == 5
  {
    DivModUnique(e, Pow(2, k), 1, e - Pow(2, k));
    assert Pow(5, 1) == 5 * Pow(5, 0);
  }

  /** Squaring doubles the exponent reached so far; the bit under the mask is what is missing from it. */
  lemma NextBit(e: nat, k: nat)
    requires k > 0
    ensures var q, b := Prefix(e, k), Pow(2, k - 1);
      && Pow(5, Prefix(e, k - 1)) == Pow(5, q) * Pow(5, q) * (if e / b % 2 != 0 then 5 else 1)
      && b / 2 == if k == 1 then 0 else Pow(2, k - 2)
  {
    var b := Pow(2, k - 1);
    var q := Prefix(e, k);
    DivTwice(e, b);
    PowAdd(5, q, q);
    assert Pow(5, 2 * q + 1) == 5 * Pow(5, 2 * q);
  }

  lemma PrefixSmaller(e: nat, k: nat)
    ensures Prefix(e, k) <= e
  {
    var b, q := Pow(2, k), Prefix(e, k);
    assert e == q * b + e % b;
    AtLeastAsMuch(q, b);
  }

  lemma SizeOfPow5(s: seq<Bigit>, e: nat, k: nat)
    requires s != [] && Top(s) != 0 && e < MAX_POW10 && Value(s, 0) == Pow(5, Prefix(e, k))
    ensures |s| < MAX_BIGITS
  {
    PrefixSmaller(e, k);
    ValueBounds(s, 0);
    FewWords(|s| - 1, Prefix(e, k));
  }

  lemma FewWords(m: nat, q: nat)
    requires BasePow(m) <= Pow(5, q)
    ensures 32 * m <= 3 * q
  {
    PowBiggerBase(5, 8, q);
    assert Pow(2, 3) == 8;
    PowOfPow(2, 3, q);
    Pow2At32();
    PowOfPow(2, 32, m);
    PowStrict(2, 3 * q, 32 * m);
  }

  lemma MovedUp(now: seq<Bigit>, was: seq<Bigit>, d: nat, exp: nat)
    requires d <= |now| && now[d..] == was && forall t :: 0 <= t < d ==> now[t] == 0
    ensures Value(now, exp) == Value(was, exp + d)
  {
    AboveZeros(now, was, d);
    PowAdd(BASE, exp, d);
    MovedProduct(Eval(was), BasePow(d), BasePow(exp), Eval(now), BasePow(exp + d));
  }

  lemma MovedProduct(x: int, p: int, q: int, xp: int, qp: int)
    requires xp == p * x && qp == q * p
    ensures xp * q == x * qp
  {
    MulSwap(p, x, q);
    MulAssoc(x, q, p);
  }

  lemma AboveZeros(now: seq<Bigit>, was: seq<Bigit>, d: nat)
    requires d <= |now| && now[d..] == was && forall t :: 0 <= t < d ==> now[t] == 0
    ensures Eval(now) == BasePow(d) * Eval(was)
  {
    var zeros := now[..d];
    EvalZero(zeros);
    EvalConcat(zeros, was);
    assert now == zeros + was;
  }

  const MAX_BIGITS := 0x4000_0000 // so that twice as many still count as an int

  lemma ConvBound(n: seq<Bigit>, k: nat)
    requires k < 2 * |n|
    ensures Conv(n, n, k) <= |n| * ((BASE - 1) * (BASE - 1))
  {
    if k < |n| {
      TermsBound(n, n, k, 0, k + 1);
      MulLe(k + 1, |n|, (BASE - 1) * (BASE - 1), (BASE - 1) * (BASE - 1));
    } else {
      StoredTerms(n, k);
      TermsBound(n, n, k, k - |n| + 1, |n|);
      MulLe(2 * |n| - k - 1, |n|, (BASE - 1) * (BASE - 1), (BASE - 1) * (BASE - 1));
    }
  }

  lemma CarryBound(size: nat, before: nat, conv: nat)
    requires before <= size * BASE && conv <= size * ((BASE - 1) * (BASE - 1))
    ensures (before + conv) / BASE <= size * BASE
  {
    assert before + conv <= size * (BASE * BASE);
  }

  lemma SquaredEval(n: seq<Bigit>, digits: seq<Bigit>, carry: nat)
    requires |digits| == 2 * |n|
    requires Eval(digits) + carry * BasePow(2 * |n|) == ConvSum(n, n, 2 * |n|)
    ensures Eval(digits) == Eval(n) * Eval(n)
  {
    ConvIsProduct(n, n, 2 * |n|);
    EvalBound(n);
    MulBound(Eval(n), Eval(n), BasePow(|n|), BasePow(|n|));
    PowAdd(BASE, |n|, |n|);
    MulLess(Eval(n), BasePow(|n|));
    if carry > 0 {
      AtLeastOnce(carry, BasePow(2 * |n|));
    }
  }

  lemma MulLess(x: nat, y: nat)
    requires x < y
    ensures x * x < y * y
  {
    MulLe(x, x, x, y);
    MulLe(x + 1, y, y, y);
    Distribute(x, 1, y);
  }

  lemma SquaredValue(n: seq<Bigit>, digits: seq<Bigit>, exp: nat)
    requires Eval(digits) == Eval(n) * Eval(n)
    ensures Value(digits, 2 * exp) == Value(n, exp) * Value(n, exp)
  {
    PowAdd(BASE, exp, exp);
    var e, p := Eval(n), BasePow(exp);
    assert (e * e) * (p * p) == (e * p) * (e * p) by {
      Rearrange(e, e, p, p);
      MulAssoc(e, p, e * p);
    }
  }

  lemma SquareIsNormal(n: seq<Bigit>, s: seq<Bigit>)
    requires n != [] && s != [] && (|s| == 1 || Top(s) != 0)
    requires Eval(s) == Eval(n) * Eval(n)
    ensures Top(n) != 0 ==> Top(s) != 0
  {
    if Top(n) != 0 && |s| == 1 {
      EvalTop(n);
      AtLeastAsMuch(Eval(n), Eval(n));
      assert s == [s[0]];
      EvalOne(s[0]);
    }
  }

  lemma WideDigit(x: Bigit, value: nat, carry: nat)
    ensures var result := x * (value % BASE) + carry % BASE;
      x * value + carry == result % BASE + BASE * (x * (value / BASE) + result / BASE + carry / BASE)
  {
    var lower, upper := value % BASE, value / BASE;
    assert value == lower + upper * BASE;
    Distribute(lower, upper * BASE, x);
    MulSwap(upper, BASE, x);
  }

  lemma PowersOfTwo(s: nat)
    requires s <= 32
    ensures Pow(2, s) * Pow(2, 32 - s) == BASE
  {
    PowAdd(2, s, 32 - s);
    Pow2At32();
  }

  lemma Pow2At32()
    ensures Pow(2, 32) == BASE
  {
    assert Pow(2, 8) == 256;
    PowAdd(2, 8, 8);
    PowAdd(2, 16, 16);
  }

  /** 2^shift is so many words and a rest. */
  lemma ShiftSplit(shift: nat)
    ensures Pow(2, shift) == BasePow(shift / 32) * Pow(2, shift % 32)
  {
    PowAdd(2, 32 * (shift / 32), shift % 32);
    PowOfPow(2, 32, shift / 32);
    Pow2At32();
  }

  lemma ShiftedValue(e: nat, exp: nat, shift: nat)
    ensures e * Pow(2, shift % 32) * BasePow(exp + shift / 32) == e * BasePow(exp) * Pow(2, shift)
  {
    var t, p, q := Pow(2, shift % 32), BasePow(exp), BasePow(shift / 32);
    ShiftSplit(shift);
    PowAdd(BASE, exp, shift / 32);
    Rearrange(e, t, p, q);
  }

  lemma ShiftFits(shift: nat)
    requires shift < 32
    ensures Pow(2, shift) <= BASE
  {
    PowGrows(2, shift, 32);
    Pow2At32();
  }

  /** What of a digit stays in its place, and what moves to the next. */
  function ShiftedIn(x: Bigit, shift: nat): Bigit
    requires shift < 32
  {
    x * Pow(2, shift) % BASE
  }

  function ShiftedOut(x: Bigit, shift: nat): nat
    requires shift < 32
  {
    x / Pow(2, 32 - shift)
  }

  lemma ShiftRound(done: seq<Bigit>, was: seq<Bigit>, carry: nat, x: Bigit, shift: nat)
    requires shift < 32 && carry < Pow(2, shift)
    requires |done| == |was| && Eval(done) + carry * BasePow(|done|) == Eval(was) * Pow(2, shift)
    ensures ShiftedIn(x, shift) + carry < BASE && ShiftedOut(x, shift) < Pow(2, shift)
    ensures Eval(done + [ShiftedIn(x, shift) + carry]) + ShiftedOut(x, shift) * BasePow(|done| + 1)
         == Eval(was + [x]) * Pow(2, shift)
  {
    PowersOfTwo(shift);
    ShiftDigit(x, Pow(2, shift), Pow(2, 32 - shift), carry);
    Round(done, was, carry, x, Pow(2, shift), ShiftedIn(x, shift) + carry, ShiftedOut(x, shift));
  }

  lemma Rearrange(e: int, t: int, p: int, q: int)
    ensures e * t * (p * q) == e * p * (q * t)
  {
    MulAssoc(e, t, p * q);
    MulAssoc(e, p, q * t);
    MulAssoc(p, q, t);
  }

  lemma ShiftedEval(was: seq<Bigit>, now: seq<Bigit>, exp: nat, shift: nat)
    requires Eval(now) == Eval(was) * Pow(2, shift % 32)
    ensures Value(now, exp + shift / 32) == Value(was, exp) * Pow(2, shift)
  {
    ShiftedValue(Eval(was), exp, shift);
  }

  /** The same on the digits done so far. */
  lemma Round(done: seq<Bigit>, was: seq<Bigit>, carry: nat, x: Bigit, value: nat, digit: Bigit, carry': nat)
    requires |done| == |was| && Eval(done) + carry * BasePow(|done|) == Eval(was) * value
    requires x * value + carry == digit + BASE * carry'
    ensures Eval(done + [digit]) + carry' * BasePow(|done| + 1) == Eval(was + [x]) * value
  {
    EvalSnoc(was, x);
    EvalSnoc(done, digit);
    BasePowStep(|done|);
    CarryStep(Eval(done), BasePow(|done|), carry, Eval(was), x, value, digit, carry');
  }

  lemma PushDigit(s: seq<Bigit>, rest: nat)
    ensures Eval(s + [rest % BASE]) + rest / BASE * BasePow(|s| + 1) == Eval(s) + rest * BasePow(|s|)
  {
    EvalSnoc(s, rest % BASE);
    SplitDigit(rest, BasePow(|s|));
  }

  lemma SplitDigit(x: int, p: int)
    ensures p * (x % BASE) + x / BASE * (BASE * p) == x * p
  {
    var r, q := x % BASE, x / BASE;
    assert x == r + q * BASE;
    Distribute(r, q * BASE, p);
    MulAssoc(q, BASE, p);
  }

  function Top(s: seq<Bigit>): Bigit
    requires s != []
  {
    s[|s| - 1]
  }

  lemma Scale(was: seq<Bigit>, exp: nat, now: seq<Bigit>, value: nat)
    requires Eval(now) == Eval(was) * value
    ensures Value(now, exp) == Value(was, exp) * value
  {
    MulSwap(Eval(was), value, BasePow(exp));
  }

  lemma AtLeastAsMuch(x: nat, value: nat)
    requires value > 0
    ensures x * value >= x
  {
  }

  /** Multiplying up cannot empty the top digit: either a new one was pushed or the value fills the old one. */
  lemma StaysNormal(was: seq<Bigit>, now: seq<Bigit>, value: nat)
    requires was != [] && Top(was) != 0 && value > 0
    requires Eval(now) == Eval(was) * value
    requires |now| >= |was| && (|now| > |was| ==> Top(now) != 0)
    ensures Top(now) != 0
  {
    if |now| == |was| {
      EvalTop(was);
      AtLeastAsMuch(Eval(was), value);
      TopOf(now);
    }
  }

  class Bigint {
    var bigits: seq<Bigit>
    var exp: nat

    ghost function V(): nat
      reads this
    {
      Value(bigits, exp)
    }

    predicate Valid()
      reads this
    {
      bigits != []
    }

    ghost predicate Normal()
      reads this
    {
      bigits != [] && bigits[|bigits| - 1] != 0
    }

    /** No leading zeros to remove. */
    ghost predicate Tidy()
      reads this
    {
      Normal() || |bigits| == 1
    }

    function NumBigits(): nat
      reads this
    {
      |bigits| + exp
    }

    constructor ()
      ensures bigits == [] && exp == 0
    {
      bigits, exp := [], 0;
    }

    method Assign(other: Bigint)
      modifies this
      ensures bigits == old(other.bigits) && exp == old(other.exp)
    {
      bigits := other.bigits;
      exp := other.exp;
    }

    method AssignInt(n: nat)
      requires n < U64
      modifies this
      ensures V() == n && exp == 0 && Tidy() && |bigits| <= 2
      ensures n > 0 ==> Normal()
    {
      var rest := n;
      bigits := [];
      while true
        invariant 0 <= rest <= n && (|bigits| > 0 ==> rest <= n / BASE) && |bigits| <= 1
        invariant Eval(bigits) + rest * BasePow(|bigits|) == n
        invariant |bigits| > 0 ==> rest > 0
        decreases rest
      {
        PushDigit(bigits, rest);
        bigits := bigits + [rest % BASE];
        rest := rest / BASE;
        if rest == 0 {
          break;
        }
      }
      exp := 0;
    }

    /** multiply(uint32_t). */
    method Multiply(value: nat)
      requires Valid() && 0 < value < BASE
      modifies this`bigits
      ensures Valid() && V() == old(V()) * value
      ensures old(Tidy()) ==> Tidy()
      ensures old(Normal()) ==> Normal()
      ensures old(|bigits|) <= |bigits| <= old(|bigits|) + 1
    {
      ghost var was := bigits;
      var carry := 0;
      var n := |bigits|;
      var i := 0;
      while i < n
        invariant 0 <= i <= n == |bigits| == |was| && 0 <= carry < BASE
        invariant forall t :: i <= t < n ==> bigits[t] == was[t]
        invariant Eval(bigits[..i]) + carry * BasePow(i) == Eval(was[..i]) * value
      {
        MulBound(bigits[i], value, BASE - 1, BASE - 1);
        var result := bigits[i] * value + carry;
        assert result < U64;
        Round(bigits[..i], was[..i], carry, was[i], value, result % BASE, result / BASE);
        assert was[..i] + [was[i]] == was[..i + 1];
        ghost var front := bigits[..i];
        bigits := bigits[i := result % BASE];
        assert bigits[..i + 1] == front + [result % BASE];
        carry := result / BASE;
        i := i + 1;
      }
      assert bigits[..n] == bigits && was[..n] == was;
      if carry != 0 {
        EvalSnoc(bigits, carry);
        bigits := bigits + [carry];
      }
      Scale(was, exp, bigits, value);
      if Top(was) != 0 {
        StaysNormal(was, bigits, value);
      }
    }

    /** multiply(uint64_t): two half products a round, the carry a double digit. */
    method MultiplyWide(value: nat)
      requires Valid() && 0 < value < U64
      modifies this`bigits
      ensures Valid() && V() == old(V()) * value
      ensures old(Normal()) ==> Normal()
      ensures old(|bigits|) <= |bigits|
    {
      ghost var was := bigits;
      var lower, upper := value % BASE, value / BASE;
      var carry := 0;
      var n := |bigits|;
      var i := 0;
      while i < n
        invariant 0 <= i <= n == |bigits| == |was| && 0 <= carry < U64
        invariant forall t :: i <= t < n ==> bigits[t] == was[t]
        invariant Eval(bigits[..i]) + carry * BasePow(i) == Eval(was[..i]) * value
      {
        MulBound(bigits[i], lower, BASE - 1, BASE - 1);
        MulBound(bigits[i], upper, BASE - 1, BASE - 1);
        var result := bigits[i] * lower + carry % BASE;
        assert result < U64;
        var next := bigits[i] * upper + result / BASE + carry / BASE;
        assert next < U64;
        WideDigit(bigits[i], value, carry);
        Round(bigits[..i], was[..i], carry, was[i], value, result % BASE, next);
        assert was[..i] + [was[i]] == was[..i + 1];
        ghost var front := bigits[..i];
        bigits := bigits[i := result % BASE];
        assert bigits[..i + 1] == front + [result % BASE];
        carry := next;
        i := i + 1;
      }
      assert bigits[..n] == bigits && was[..n] == was;
      while carry != 0
        invariant carry >= 0 && |bigits| >= n
        invariant Eval(bigits) + carry * BasePow(|bigits|) == Eval(was) * value
        invariant carry == 0 && |bigits| > n ==> Normal()
        decreases carry
      {
        PushDigit(bigits, carry);
        bigits := bigits + [carry % BASE];
        carry := carry / BASE;
      }
      Scale(was, exp, bigits, value);
      if Top(was) != 0 {
        StaysNormal(was, bigits, value);
      }
    }

    /** operator<<=: whole words move to the exponent, the rest is a carry from digit to digit. */
    method ShiftLeft(shift: nat)
      requires Valid()
      modifies this
      ensures Valid() && V() == old(V()) * Pow(2, shift)
      ensures old(Normal()) ==> Normal()
      ensures exp == old(exp) + shift / 32 && |bigits| >= old(|bigits|)
      ensures bigits[0] == ShiftedIn(old(bigits[0]), shift % 32)
    {
      exp := exp + shift / 32;
      if shift % 32 == 0 {
        ShiftedEval(bigits, bigits, old(exp), shift);
        return;
      }
      ShiftBits(shift % 32);
      ShiftedEval(old(bigits), bigits, old(exp), shift);
    }

    method ShiftBits(shift: nat)
      requires Valid() && 0 < shift < 32
      modifies this`bigits
      ensures Valid() && Eval(bigits) == old(Eval(bigits)) * Pow(2, shift)
      ensures old(Normal()) ==> Normal()
      ensures |bigits| >= old(|bigits|)
      ensures bigits[0] == ShiftedIn(old(bigits[0]), shift)
    {
      ghost var was := bigits;
      var carry := ShiftEachDigit(shift);
      if carry != 0 {
        ShiftFits(shift);
        EvalSnoc(bigits, carry);
        bigits := bigits + [carry];
      }
      if Top(was) != 0 {
        StaysNormal(was, bigits, Pow(2, shift));
      }
    }

    /** The loop of operator<<=. */
    method ShiftEachDigit(shift: nat) returns (carry: nat)
      requires Valid() && 0 < shift < 32
      modifies this`bigits
      ensures |bigits| == old(|bigits|) && carry < Pow(2, shift)
      ensures Eval(bigits) + carry * BasePow(|bigits|) == old(Eval(bigits)) * Pow(2, shift)
      ensures bigits[0] == ShiftedIn(old(bigits[0]), shift)
    {
      ghost var was := bigits;
      carry := 0;
      var n := |bigits|;
      var i := 0;
      while i < n
        invariant 0 <= i <= n == |bigits| == |was| && carry < Pow(2, shift)
        invariant forall t :: i <= t < n ==> bigits[t] == was[t]
        invariant Eval(bigits[..i]) + carry * BasePow(i) == Eval(was[..i]) * Pow(2, shift)
        invariant if i == 0 then carry == 0 else bigits[0] == ShiftedIn(was[0], shift)
      {
        ShiftRound(bigits[..i], was[..i], carry, was[i], shift);
        var c := ShiftedOut(bigits[i], shift);
        var digit := ShiftedIn(bigits[i], shift) + carry;
        assert was[..i] + [was[i]] == was[..i + 1];
        ghost var front := bigits[..i];
        bigits := bigits[i := digit];
        assert bigits[..i + 1] == front + [digit];
        carry := c;
        i := i + 1;
      }
      assert bigits[..n] == bigits && was[..n] == was;
    }

    method RemoveLeadingZeros()
      requires Valid()
      modifies this`bigits
      ensures Tidy() && Eval(bigits) == old(Eval(bigits))
      ensures |bigits| <= old(|bigits|)
    {
      var last := |bigits| - 1;
      ghost var was := bigits;
      assert bigits[..last + 1] == was;
      while last > 0 && bigits[last] == 0
        invariant 0 <= last < |bigits|
        invariant Eval(bigits[..last + 1]) == Eval(was)
      {
        EvalTake(bigits, last);
        last := last - 1;
      }
      bigits := bigits[..last + 1];
    }

    /**
     * Sign of lhs - rhs, except that equal numbers are told apart by how many digits they store.
     * A longer operand has to be normal.
     */
    static method Compare(lhs: Bigint, rhs: Bigint) returns (r: int)
      requires lhs.Valid() && rhs.Valid()
      requires lhs.NumBigits() > rhs.NumBigits() ==> lhs.Normal()
      requires rhs.NumBigits() > lhs.NumBigits() ==> rhs.Normal()
      ensures r == Compared(lhs.V(), |lhs.bigits|, rhs.V(), |rhs.bigits|)
    {
      if lhs.NumBigits() != rhs.NumBigits() {
        LongerIsGreater(lhs.bigits, lhs.exp, rhs.bigits, rhs.exp);
        LongerIsGreater(rhs.bigits, rhs.exp, lhs.bigits, lhs.exp);
        return if lhs.NumBigits() > rhs.NumBigits() then 1 else -1;
      }
      r := CompareDigits(lhs, rhs);
    }

    /** From the top digit down to the end of the shorter operand. */
    static method CompareDigits(lhs: Bigint, rhs: Bigint) returns (r: int)
      requires lhs.Valid() && rhs.Valid() && lhs.NumBigits() == rhs.NumBigits()
      ensures r == Compared(lhs.V(), |lhs.bigits|, rhs.V(), |rhs.bigits|)
    {
      var i := |lhs.bigits| - 1;
      var j := |rhs.bigits| - 1;
      var end := i - j;
      if end < 0 {
        end := 0;
      }
      while i >= end
        invariant end - 1 <= i < |lhs.bigits| && i - j == |lhs.bigits| - |rhs.bigits|
        invariant SameDigitsFrom(lhs.bigits, lhs.exp, rhs.bigits, rhs.exp, lhs.exp + i + 1)
      {
        var lhsBigit, rhsBigit := lhs.bigits[i], rhs.bigits[j];
        DigitDecides(lhs.bigits, lhs.exp, rhs.bigits, rhs.exp, lhs.exp + i);
        if lhsBigit != rhsBigit {
          return if lhsBigit > rhsBigit then 1 else -1;
        }
        i, j := i - 1, j - 1;
      }
      OnlyLengthsLeft(lhs.bigits, lhs.exp, rhs.bigits, rhs.exp);
      if i != j {
        return if i > j then 1 else -1;
      }
      return 0;
    }

    /** Sign of lhs1 + lhs2 - rhs, from the top digit down, keeping only a borrow. */
    static method AddCompare(lhs1: Bigint, lhs2: Bigint, rhs: Bigint) returns (r: int)
      requires lhs1.Valid() && lhs2.Valid() && rhs.Valid()
      requires lhs1.NumBigits() > rhs.NumBigits() ==> lhs1.Normal()
      requires lhs2.NumBigits() > rhs.NumBigits() ==> lhs2.Normal()
      requires rhs.NumBigits() > Max(lhs1.NumBigits(), lhs2.NumBigits()) + 1 ==> rhs.Normal()
      ensures r == Sign(lhs1.V() + lhs2.V() - rhs.V())
    {
      var maxLhsBigits := Max(lhs1.NumBigits(), lhs2.NumBigits());
      var numRhsBigits := rhs.NumBigits();
      if maxLhsBigits + 1 < numRhsBigits {
        TwoShorter(lhs1.bigits, lhs1.exp, lhs2.bigits, lhs2.exp, rhs.bigits, rhs.exp);
        return -1;
      }
      if maxLhsBigits > numRhsBigits {
        LongerIsGreater(lhs1.bigits, lhs1.exp, rhs.bigits, rhs.exp);
        LongerIsGreater(lhs2.bigits, lhs2.exp, rhs.bigits, rhs.exp);
        return 1;
      }
      r := AddCompareDigits(lhs1, lhs2, rhs);
    }

    /** The scan: `borrow` is how far rhs is ahead in the digits seen so far, 0 or 1, shifted up. */
    static method AddCompareDigits(lhs1: Bigint, lhs2: Bigint, rhs: Bigint) returns (r: int)
      requires lhs1.NumBigits() <= rhs.NumBigits() && lhs2.NumBigits() <= rhs.NumBigits()
      ensures r == Sign(lhs1.V() + lhs2.V() - rhs.V())
    {
      var borrow := 0;
      var minExp := Min(Min(lhs1.exp, lhs2.exp), rhs.exp);
      var i: int := rhs.NumBigits() - 1;
      while i >= minExp
        invariant minExp - 1 <= i <= rhs.NumBigits() - 1
        invariant 0 <= Gap(lhs1, lhs2, rhs, i + 1) <= 1
        invariant borrow == Gap(lhs1, lhs2, rhs, i + 1) * BASE
      {
        var sum := lhs1.GetBigit(i) + lhs2.GetBigit(i);
        var rhsBigit := rhs.GetBigit(i);
        assert sum < U64 && rhsBigit + borrow < U64;
        GapStep(lhs1, lhs2, rhs, i);
        if sum > rhsBigit + borrow {
          return 1;
        }
        borrow := rhsBigit + borrow - sum;
        if borrow > 1 {
          return -1;
        }
        borrow := borrow * BASE;
        i := i - 1;
      }
      GapIsAll(lhs1, lhs2, rhs, minExp);
      return if borrow != 0 then -1 else 0;
    }

    /** pow(5, e) by squaring along the bits of e, then a shift for pow(2, e). */
    method AssignPow10(e: nat)
      requires e < MAX_POW10
      modifies this
      ensures Normal() && V() == Pow(10, e) && exp == e / 32
    {
      if e == 0 {
        AssignInt(1);
        return;
      }
      AssignPow5(e);
      ShiftLeft(e);
      PowOfProduct(5, 2, e);
    }

    method AssignPow5(e: nat)
      requires 0 < e < MAX_POW10
      modifies this
      ensures Normal() && V() == Pow(5, e) && exp == 0
    {
      var bitmask: nat := 1;
      ghost var k: nat := 0;
      while e >= bitmask
        invariant bitmask == Pow(2, k) && bitmask <= 2 * e
        invariant k > 0 ==> e >= Pow(2, k - 1)
        decreases 2 * e - bitmask
      {
        bitmask := bitmask * 2;
        k := k + 1;
      }
      assert bitmask < 0x8000_0000;
      bitmask := bitmask / 2;
      k := k - 1;
      AssignInt(5);
      bitmask := bitmask / 2;
      TopBit(e, k);
      while bitmask != 0
        invariant Normal() && exp == 0
        invariant bitmask == if k == 0 then 0 else Pow(2, k - 1)
        invariant V() == Pow(5, Prefix(e, k))
        decreases bitmask
      {
        TakeBit(e, bitmask, k);
        NextBit(e, k);
        k := k - 1;
        bitmask := bitmask / 2;
      }
    }

    /** One bit of the exponent: square, and multiply by 5 if it is set. */
    method TakeBit(e: nat, bitmask: nat, ghost k: nat)
      requires e < MAX_POW10 && k > 0 && bitmask == Pow(2, k - 1)
      requires Normal() && exp == 0 && V() == Pow(5, Prefix(e, k))
      modifies this
      ensures Normal() && exp == 0 && V() == Pow(5, Prefix(e, k - 1))
    {
      SizeOfPow5(bigits, e, k);
      NextBit(e, k);
      Square();
      if e / bitmask % 2 != 0 {
        Multiply(5);
      }
    }

    /** Same number, exponent no larger than the other's. */
    method Align(other: Bigint)
      requires Valid()
      modifies this
      ensures Valid() && V() == old(V())
      ensures exp == Min(old(exp), other.exp) && NumBigits() == old(NumBigits())
      ensures Top(bigits) == Top(old(bigits)) && |bigits| >= old(|bigits|)
    {
      var expDifference := exp - other.exp;
      if expDifference <= 0 {
        return;
      }
      ghost var was := bigits;
      var numBigits := |bigits|;
      bigits := bigits + seq(expDifference, _ => 0);
      var i: int, j: int := numBigits - 1, numBigits - 1 + expDifference;
      while i >= 0
        invariant -1 <= i < numBigits && j == i + expDifference && |bigits| == numBigits + expDifference
        invariant forall t :: 0 <= t <= i ==> bigits[t] == was[t]
        invariant forall t :: i < t < numBigits ==> bigits[t + expDifference] == was[t]
        decreases i + 1
        modifies this`bigits
      {
        bigits := bigits[j := bigits[i]];
        i, j := i - 1, j - 1;
      }
      var filled := 0;
      while filled < expDifference
        invariant 0 <= filled <= expDifference && |bigits| == numBigits + expDifference
        invariant forall t :: 0 <= t < filled ==> bigits[t] == 0
        invariant forall t :: 0 <= t < numBigits ==> bigits[t + expDifference] == was[t]
        modifies this`bigits
      {
        bigits := bigits[filled := 0];
        filled := filled + 1;
      }
      exp := exp - expDifference;
      assert bigits[expDifference..] == was;
      MovedUp(bigits, was, expDifference, exp);
    }

    /** (*this)[index] -= other + borrow, in 64-bit arithmetic that wraps around. */
    method SubtractBits(index: nat, other: Bigit, borrow: nat) returns (borrow': nat)
      requires index < |bigits| && borrow <= 1
      modifies this`bigits
      ensures borrow' <= 1
      ensures bigits == old(bigits)[index := Minus(old(bigits[index]), other, borrow)]
      ensures borrow' == Borrows(old(bigits[index]), other, borrow)
    {
      var result := (bigits[index] - other - borrow) % U64;
      MinusIsWrapped(bigits[index], other, borrow);
      bigits := bigits[index := result % BASE];
      borrow' := result / 0x8000_0000_0000_0000;
    }

    method SubtractDigits(other: Bigint) returns (borrow: nat)
      requires this != other && other.Valid() && other.exp >= exp
      requires other.exp - exp + |other.bigits| <= |bigits|
      modifies this`bigits
      ensures borrow <= 1 && |bigits| == old(|bigits|)
      ensures var o := other.exp - exp;
        BorrowedFrom(old(bigits), bigits, other.bigits, o, o + |other.bigits|, borrow)
    {
      borrow := 0;
      ghost var was, o := bigits, other.exp - exp;
      var i := other.exp - exp;
      var j := 0;
      while j != |other.bigits|
        invariant 0 <= j <= |other.bigits| && i == o + j && borrow <= 1 && |bigits| == |was|
        invariant BorrowedFrom(was, bigits, other.bigits[..j], o, i, borrow)
        decreases |other.bigits| - j
        modifies this`bigits
      {
        ghost var before, b := bigits, borrow;
        borrow := SubtractBits(i, other.bigits[j], borrow);
        BorrowStep(was, before, other.bigits[..j], o, b, other.bigits[j]);
        assert other.bigits[..j + 1] == other.bigits[..j] + [other.bigits[j]];
        i, j := i + 1, j + 1;
      }
      assert other.bigits[..j] == other.bigits;
    }

    /**
     * *this -= other. The last loop does not move its index, so where the borrow meets a zero
     * digit just above the other's top the result is off by `Spill`.
     */
    method SubtractAligned(other: Bigint)
      requires this != other && Valid() && other.Normal()
      requires other.exp >= exp && V() >= other.V()
      modifies this`bigits
      ensures Tidy() && |bigits| <= old(|bigits|)
      ensures V() == old(V()) - other.V() + Spill(old(bigits), exp, other.V(), other.NumBigits())
    {
      ghost var was, o := bigits, other.exp - exp;
      EnoughDigits(bigits, exp, other.bigits, other.exp);
      var borrow := SubtractDigits(other);
      ghost var mid, x := bigits, borrow;
      BorrowAtTop(was, mid, other.bigits, o, exp, x);
      PropagateBorrow(other.exp - exp + |other.bigits|, borrow);
      Subtracted(was, mid, bigits, other.bigits, o, exp, x);
      RemoveLeadingZeros();
    }

    /** `while (borrow > 0) subtract_bits(i, 0, borrow)`: two rounds on the same digit if it is zero. */
    method PropagateBorrow(i: nat, start: nat)
      requires start <= 1 && (start == 1 ==> i < |bigits|)
      modifies this`bigits
      ensures start == 0 ==> bigits == old(bigits)
      ensures start == 1 ==> bigits == old(bigits)[i := if old(bigits[i]) == 0 then BASE - 2 else old(bigits[i]) - 1]
    {
      var borrow := start;
      ghost var mid := bigits;
      while borrow > 0
        invariant borrow <= 1 && |bigits| == |mid|
        invariant start == 0 ==> borrow == 0 && bigits == mid
        invariant start == 1 && borrow == 1 ==> bigits == mid || (mid[i] == 0 && bigits == mid[i := BASE - 1])
        invariant start == 1 && borrow == 0 ==> bigits == mid[i := if mid[i] == 0 then BASE - 2 else mid[i] - 1]
        decreases borrow, if borrow > 0 && bigits[i] == 0 then 1 else 0
      {
        borrow := SubtractBits(i, 0, borrow);
      }
    }

    /** What the stored digits have to be for *this to be divided. */
    ghost predicate Comparable(divisor: Bigint)
      reads this, divisor
    {
      && Valid() && Tidy() && divisor.Normal()
      && (NumBigits() > divisor.NumBigits() ==> Normal())
    }

    /**
     * Quotient by repeated subtraction; the remainder stays in *this. Where the divisor is *this
     * with zeros below, the two are equal but *this compares as less, and nothing is subtracted.
     */
    method DivmodAssign(divisor: Bigint) returns (quotient: nat)
      requires this != divisor && Comparable(divisor)
      requires NumBigits() <= divisor.NumBigits() + 1
      modifies this
      ensures old(V()) == quotient * divisor.V() + V()
      ensures V() < divisor.V() <==> !Padded(divisor.bigits, divisor.exp, old(bigits), old(exp))
      ensures Padded(divisor.bigits, divisor.exp, old(bigits), old(exp)) ==> quotient == 0
      ensures Tidy() && NumBigits() <= old(NumBigits())
      ensures if quotient > 0 then exp == Min(old(exp), divisor.exp) else bigits == old(bigits) && exp == old(exp)
    {
      var c := Compare(this, divisor);
      TieBroken(bigits, exp, divisor.bigits, divisor.exp);
      if c < 0 {
        return 0;
      }
      ValueBounds(divisor.bigits, divisor.exp);
      PositiveIsNormal(bigits, exp);
      Align(divisor);
      quotient := 0;
      ghost var n := V();
      while c >= 0
        invariant Comparable(divisor) && exp == Min(old(exp), divisor.exp)
        invariant NumBigits() <= old(NumBigits())
        invariant c >= 0 <==> V() >= divisor.V()
        invariant n == quotient * divisor.V() + V()
        invariant quotient == 0 ==> c >= 0
        decreases V()
        modifies this`bigits
      {
        SubtractOnce(divisor);
        AlignedComparable(bigits, exp, divisor.bigits, divisor.exp);
        Distribute(quotient, 1, divisor.V());
        quotient := quotient + 1;
        c := Compare(this, divisor);
      }
    }

    method SubtractOnce(divisor: Bigint)
      requires this != divisor && Comparable(divisor) && V() >= divisor.V()
      requires exp <= divisor.exp && NumBigits() <= divisor.NumBigits() + 1
      modifies this`bigits
      ensures Comparable(divisor) && |bigits| <= old(|bigits|)
      ensures V() == old(V()) - divisor.V() && V() < old(V())
    {
      ValueBounds(divisor.bigits, divisor.exp);
      NoSpill(bigits, exp, divisor.V(), divisor.NumBigits());
      SubtractAligned(divisor);
      AlignedComparable(bigits, exp, divisor.bigits, divisor.exp);
    }

    /** Convolution into the cleared digits, first the lower half, then the upper. */
    method Square()
      requires Valid() && |bigits| < MAX_BIGITS
      modifies this
      ensures Tidy() && V() == old(V()) * old(V()) && exp == 2 * old(exp)
      ensures old(Normal()) ==> Normal()
    {
      var n := bigits;
      bigits := seq(2 * |n|, _ => 0);
      var sum := Accumulator(0, 0);
      sum := SquareLowerHalf(n, sum);
      sum := SquareUpperHalf(n, sum);
      assert bigits[..2 * |n|] == bigits;
      SquaredEval(n, bigits, sum.Value());
      RemoveLeadingZeros();
      exp := exp * 2;
      SquaredValue(n, bigits, old(exp));
      SquareIsNormal(n, bigits);
    }

    method SquareLowerHalf(n: seq<Bigit>, start: Accumulator) returns (sum: Accumulator)
      requires 0 < |n| < MAX_BIGITS && |bigits| == 2 * |n| && start == Accumulator(0, 0)
      modifies this`bigits
      ensures |bigits| == 2 * |n| && sum.Valid() && sum.Value() <= |n| * BASE
      ensures Eval(bigits[..|n|]) + sum.Value() * BasePow(|n|) == ConvSum(n, n, |n|)
    {
      sum := start;
      var k := 0;
      while k < |n|
        invariant 0 <= k <= |n| && |bigits| == 2 * |n|
        invariant sum.Valid() && sum.Value() <= |n| * BASE
        invariant Eval(bigits[..k]) + sum.Value() * BasePow(k) == ConvSum(n, n, k)
      {
        ghost var before := sum.Value();
        sum := AddLowerTerms(n, k, sum);
        sum := StoreDigit(k, sum, n, before);
        k := k + 1;
      }
    }

    method SquareUpperHalf(n: seq<Bigit>, start: Accumulator) returns (sum: Accumulator)
      requires 0 < |n| < MAX_BIGITS && |bigits| == 2 * |n|
      requires start.Valid() && start.Value() <= |n| * BASE
      requires Eval(bigits[..|n|]) + start.Value() * BasePow(|n|) == ConvSum(n, n, |n|)
      modifies this`bigits
      ensures |bigits| == 2 * |n|
      ensures Eval(bigits[..2 * |n|]) + sum.Value() * BasePow(2 * |n|) == ConvSum(n, n, 2 * |n|)
    {
      sum := start;
      var k := |n|;
      while k < 2 * |n|
        invariant |n| <= k <= 2 * |n| && |bigits| == 2 * |n|
        invariant sum.Valid() && sum.Value() <= |n| * BASE
        invariant Eval(bigits[..k]) + sum.Value() * BasePow(k) == ConvSum(n, n, k)
      {
        ghost var before := sum.Value();
        sum := AddUpperTerms(n, k, sum);
        sum := StoreDigit(k, sum, n, before);
        k := k + 1;
      }
    }

    /** Position k of the lower half: i runs up from 0 while j runs down to 0. */
    static method AddLowerTerms(n: seq<Bigit>, k: nat, start: Accumulator) returns (sum: Accumulator)
      requires k < |n| < MAX_BIGITS && start.Valid() && start.Value() <= |n| * BASE
      ensures sum.Valid() && sum.Value() == start.Value() + Conv(n, n, k)
    {
      sum := start;
      var i: nat, j: int := 0, k;
      while j >= 0
        invariant 0 <= i <= k + 1 && i + j == k
        invariant sum.Valid() && sum.Value() == start.Value() + Terms(n, n, k, 0, i)
        decreases j
      {
        sum := AddProduct(sum, n, k, 0, i, start.Value());
        i, j := i + 1, j - 1;
      }
    }

    /** Position k of the upper half: j runs down from the last digit while i runs up to it. */
    static method AddUpperTerms(n: seq<Bigit>, k: nat, start: Accumulator) returns (sum: Accumulator)
      requires |n| <= k < 2 * |n| && |n| < MAX_BIGITS && start.Valid() && start.Value() <= |n| * BASE
      ensures sum.Valid() && sum.Value() == start.Value() + Conv(n, n, k)
    {
      sum := start;
      var j := |n| - 1;
      var i := k - j;
      while i < |n|
        invariant k - |n| + 1 <= i <= |n| && i + j == k
        invariant sum.Valid() && sum.Value() == start.Value() + Terms(n, n, k, k - |n| + 1, i)
      {
        sum := AddProduct(sum, n, k, k - |n| + 1, i, start.Value());
        i, j := i + 1, j - 1;
      }
      StoredTerms(n, k);
    }

    /** sum += n[i] * n[k - i]. */
    static method AddProduct(sum: Accumulator, n: seq<Bigit>, k: nat, ghost lo: int, i: nat, ghost before: nat)
      returns (next: Accumulator)
      requires |n| < MAX_BIGITS && 0 <= lo <= i < |n| && 0 <= k - i < |n|
      requires before <= |n| * BASE
      requires sum.Valid() && sum.Value() == before + Terms(n, n, k, lo, i)
      ensures next.Valid() && next.Value() == before + Terms(n, n, k, lo, i + 1)
    {
      var x: nat, y: nat := n[i], n[k - i];
      var product := x * y;
      MulBound(n[i], n[k - i], BASE - 1, BASE - 1);
      TermsBound(n, n, k, lo, i);
      MulLe(i - lo, |n|, (BASE - 1) * (BASE - 1), (BASE - 1) * (BASE - 1));
      AddExact(sum, product);
      next := sum.Add(product);
    }

    /** Writes the low word of the sum to position k and keeps the rest as the carry. */
    method StoreDigit(k: nat, sum: Accumulator, ghost n: seq<Bigit>, ghost before: nat) returns (carry: Accumulator)
      requires k < |bigits| == 2 * |n| && |n| < MAX_BIGITS
      requires sum.Valid() && before <= |n| * BASE
      requires sum.Value() == before + Conv(n, n, k)
      requires Eval(bigits[..k]) + before * BasePow(k) == ConvSum(n, n, k)
      modifies this`bigits
      ensures |bigits| == old(|bigits|) && carry.Valid() && carry.Value() <= |n| * BASE
      ensures Eval(bigits[..k + 1]) + carry.Value() * BasePow(k + 1) == ConvSum(n, n, k + 1)
    {
      ShiftExact(sum);
      ghost var front := bigits[..k];
      bigits := bigits[k := sum.ToBigit()];
      carry := sum.ShiftRight32();
      assert bigits[..k + 1] == front + [sum.ToBigit()];
      PushDigit(front, sum.Value());
      Distribute(before, Conv(n, n, k), BasePow(k));
      ConvBound(n, k);
      CarryBound(|n|, before, Conv(n, n, k));
    }

    function GetBigit(i: nat): Bigit
      reads this
    {
      if i >= exp && i < NumBigits() then bigits[i - exp] else 0
    }
  }
}
