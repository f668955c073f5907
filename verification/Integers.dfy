/** Counting, printing and parsing decimal integers: tools/unpacker/fmt/format.h and core.h. */
module Integers {
  import opened Powers
  import opened DecimalDigits

  const INT_MAX := 0x7fff_ffff

  lemma IntHas31Bits()
    ensures INT_MAX + 1 == Pow(2, 31)
  {
    assert Pow(2, 8) == 0x100 && Pow(2, 7) == 0x80;
    PowAdd(2, 8, 8);
    PowAdd(2, 16, 8);
    PowAdd(2, 24, 7);
  }

  // ----- Counting digits -----

  /** Four digits at a time. */
  method CountDigitsFallback(n: nat) returns (count: nat)
    ensures count == CountDigits(n)
  {
    count := 1;
    var rest := n;
    while true
      invariant count > 0 && CountDigits(n) == CountDigits(rest) + count - 1
      decreases rest
    {
      SmallCounts(rest);
      if rest < 10 {
        return count;
      }
      if rest < 100 {
        return count + 1;
      }
      if rest < 1000 {
        return count + 2;
      }
      if rest < 10000 {
        return count + 3;
      }
      rest := rest / 10000;
      count := count + 4;
    }
  }

  lemma SmallCounts(n: nat)
    ensures n < 10 ==> CountDigits(n) == 1
    ensures 10 <= n < 100 ==> CountDigits(n) == 2
    ensures 100 <= n < 1000 ==> CountDigits(n) == 3
    ensures 1000 <= n < 10000 ==> CountDigits(n) == 4
    ensures n >= 10000 ==> CountDigits(n) == 4 + CountDigits(n / 10000)
  {
    var tens, hundreds, thousands := n / 10, n / 100, n / 1000;
    assert hundreds == tens / 10 && thousands == hundreds / 10 && n / 10000 == thousands / 10;
    assert n >= 10 ==> CountDigits(n) == 1 + CountDigits(tens);
    assert n >= 100 ==> CountDigits(tens) == 1 + CountDigits(hundreds);
    assert n >= 1000 ==> CountDigits(hundreds) == 1 + CountDigits(thousands);
    assert n >= 10000 ==> CountDigits(thousands) == 1 + CountDigits(n / 10000);
  }

  /** Index of the most significant one bit. */
  function BitScanReverse(n: nat): nat
    requires n > 0
  {
    if n == 1 then 0 else 1 + BitScanReverse(n / 2)
  }

  lemma {:induction false} BitScanBounds(n: nat)
    requires n > 0
    ensures Pow(2, BitScanReverse(n)) <= n < 2 * Pow(2, BitScanReverse(n))
    decreases n
  {
    if n > 1 {
      BitScanBounds(n / 2);
    } else {
      assert Pow(2, 0) == 1;
    }
  }

  function WithLowBit(n: nat): nat {
    if n % 2 == 0 then n + 1 else n
  }

  /**
   * What a table says about bit length b, with p == pow(2, b): the numbers of that length have
   * `digits` digits or one less.
   */
  predicate Row(digits: nat, p: int) {
    && 1 <= digits <= 20
    && 2 * p <= 10 * POWER_OF_10_64[digits - 1]
    && (digits > 1 ==> POWER_OF_10_64[digits - 2] <= p)
  }

  /** One comparison decides between the two. */
  lemma RowCounts(n: nat, digits: nat)
    requires Row(digits, Pow(2, BitLength(n)))
    ensures CountDigits(n) == if digits > 1 && n < POWER_OF_10_64[digits - 1] then digits - 1 else digits
  {
    LengthBounds(n);
    PowerTable(digits - 1);
    assert Pow(10, 0) == 1;
    if digits == 1 {
      CountDigitsUnique(n, 1);
    } else {
      PowerTable(digits - 2);
      CountDigitsUnique(n, if n < POWER_OF_10_64[digits - 1] then digits - 1 else digits);
    }
  }

  lemma LengthBounds(n: nat)
    ensures var p := Pow(2, BitScanReverse(WithLowBit(n)));
      n < 2 * p && (p > 1 ==> p <= n)
  {
    var m := WithLowBit(n);
    var b := BitScanReverse(m);
    BitScanBounds(m);
    assert b > 0 ==> Pow(2, b) == 2 * Pow(2, b - 1);
    assert Pow(2, 0) == 1;
  }

  /** The rows of bsr2log10. */
  const BSR_TO_LOG10_0: seq<nat> := [1, 1, 1, 2, 2, 2, 3, 3, 3, 4, 4, 4, 4, 5, 5, 5]
  const BSR_TO_LOG10_16: seq<nat> := [6, 6, 6, 7, 7, 7, 7, 8, 8, 8, 9, 9, 9, 10, 10, 10]
  const BSR_TO_LOG10_32: seq<nat> := [10, 11, 11, 11, 12, 12, 12, 13, 13, 13, 13, 14, 14, 14, 15, 15]
  const BSR_TO_LOG10_48: seq<nat> := [15, 16, 16, 16, 16, 17, 17, 17, 18, 18, 18, 19, 19, 19, 19, 20]

  function BsrToLog10(b: nat): nat
    requires b < 64
  {
    if b < 16 then BSR_TO_LOG10_0[b]
    else if b < 32 then BSR_TO_LOG10_16[b - 16]
    else if b < 48 then BSR_TO_LOG10_32[b - 32]
    else BSR_TO_LOG10_48[b - 48]
  }

  /** Sixteen rows, from bit length e on. */
  predicate Rows(row: seq<nat>, e: nat) {
    |row| == 16 && forall b :: 0 <= b < 16 ==> Row(row[b], Pow(2, e + b))
  }

  predicate Listed(row: seq<nat>, p: nat) {
    && |row| == 16
    && Row(row[0], 1 * p) && Row(row[1], 2 * p) && Row(row[2], 4 * p) && Row(row[3], 8 * p)
    && Row(row[4], 0x10 * p) && Row(row[5], 0x20 * p) && Row(row[6], 0x40 * p) && Row(row[7], 0x80 * p)
    && Row(row[8], 0x100 * p) && Row(row[9], 0x200 * p) && Row(row[10], 0x400 * p) && Row(row[11], 0x800 * p)
    && Row(row[12], 0x1000 * p) && Row(row[13], 0x2000 * p) && Row(row[14], 0x4000 * p) && Row(row[15], 0x8000 * p)
  }

  lemma ListedAt(row: seq<nat>, p: nat, b: nat)
    requires Listed(row, p) && b < 16
    ensures Row(row[b], Pow(2, b) * p)
  {
    match b {
      case 0 => assert Pow(2, 0) == 1;
      case 1 => assert Pow(2, 1) == 2;
      case 2 => assert Pow(2, 2) == 4;
      case 3 => assert Pow(2, 3) == 8;
      case 4 => assert Pow(2, 4) == 16;
      case 5 => assert Pow(2, 5) == 32;
      case 6 => assert Pow(2, 6) == 64;
      case 7 => assert Pow(2, 7) == 128;
      case 8 => assert Pow(2, 8) == 256;
      case 9 => assert Pow(2, 9) == 512;
      case 10 => assert Pow(2, 10) == 1024;
      case 11 => assert Pow(2, 11) == 2048;
      case 12 => assert Pow(2, 12) == 4096;
      case 13 => assert Pow(2, 13) == 8192;
      case 14 => assert Pow(2, 14) == 16384;
      case 15 => assert Pow(2, 15) == 32768;
    }
  }

  lemma RowsListed(row: seq<nat>, e: nat, p: nat)
    requires Listed(row, p) && p == Pow(2, e)
    ensures Rows(row, e)
  {
    forall b | 0 <= b < 16
      ensures Row(row[b], Pow(2, e + b))
    {
      ListedAt(row, p, b);
      PowAdd(2, b, e);
    }
  }

  lemma WordPower(k: nat)
    requires k <= 4
    ensures Pow(2, 16 * k) == Pow(0x1_0000, k)
  {
    assert Pow(2, 8) == 256;
    PowAdd(2, 8, 8);
    PowOfPow(2, 16, k);
  }

  lemma BsrListed0()
    ensures Listed(BSR_TO_LOG10_0, 1)
  {
  }

  lemma BsrRows0()
    ensures Rows(BSR_TO_LOG10_0, 0)
  {
    BsrListed0();
    WordPower(0);
    RowsListed(BSR_TO_LOG10_0, 0, 1);
  }

  lemma BsrListed16()
    ensures Listed(BSR_TO_LOG10_16, 0x1_0000)
  {
  }

  lemma BsrRows16()
    ensures Rows(BSR_TO_LOG10_16, 16)
  {
    BsrListed16();
    WordPower(1);
    RowsListed(BSR_TO_LOG10_16, 16, 0x1_0000);
  }

  lemma BsrListed32()
    ensures Listed(BSR_TO_LOG10_32, 0x1_0000_0000)
  {
  }

  lemma BsrRows32()
    ensures Rows(BSR_TO_LOG10_32, 32)
  {
    BsrListed32();
    WordPower(2);
    RowsListed(BSR_TO_LOG10_32, 32, 0x1_0000_0000);
  }

  lemma BsrListed48()
    ensures Listed(BSR_TO_LOG10_48, 0x1_0000_0000_0000)
  {
  }

  lemma BsrRows48()
    ensures Rows(BSR_TO_LOG10_48, 48)
  {
    BsrListed48();
    WordPower(3);
    RowsListed(BSR_TO_LOG10_48, 48, 0x1_0000_0000_0000);
  }

  lemma RowOf(b: nat)
    requires b < 64
    ensures Row(BsrToLog10(b), Pow(2, b))
  {
    if b < 16 {
      BsrRows0();
    } else if b < 32 {
      BsrRows16();
    } else if b < 48 {
      BsrRows32();
    } else {
      BsrRows48();
    }
  }

  /** zero_or_powers_of_10. */
  function ZeroOrPowerOf10(t: nat): nat
    requires t <= 20
  {
    if t < 2 then 0 else POWER_OF_10_64[t - 1]
  }

  lemma BitScanFits(n: nat, bits: nat)
    requires 0 < n < Pow(2, bits)
    ensures BitScanReverse(n) < bits
  {
    BitScanBounds(n);
    if BitScanReverse(n) >= bits {
      PowGrows(2, bits, BitScanReverse(n));
    }
  }

  function BitLength(n: nat): nat {
    BitScanReverse(WithLowBit(n))
  }

  function DoCountDigits64(n: nat): (count: int)
    requires n < U64
    ensures count == CountDigits(n)
  {
    Counted64(n);
    var t := BsrToLog10(BitLength(n));
    t - if n < ZeroOrPowerOf10(t) then 1 else 0
  }

  lemma Counted64(n: nat)
    requires n < U64
    ensures BitLength(n) < 64
    ensures var t := BsrToLog10(BitLength(n));
      t <= 20 && CountDigits(n) == t - if n < ZeroOrPowerOf10(t) then 1 else 0
  {
    WordPower(4);
    BitScanFits(WithLowBit(n), 64);
    RowOf(BitLength(n));
    RowCounts(n, BsrToLog10(BitLength(n)));
  }

  /** Number of characters of the T in each FMT_INC(T) of the 32-bit table: T is 0, 10, 100 and so on. */
  const INC_DIGITS_0: seq<nat> := [1, 1, 1, 2, 2, 2, 3, 3, 3, 4, 4, 4, 5, 5, 5, 6]
  const INC_DIGITS_16: seq<nat> := [6, 6, 7, 7, 7, 8, 8, 8, 9, 9, 9, 10, 10, 10, 10, 10]

  /** FMT_INC(T): that number in the upper 32 bits, less T. */
  function FmtInc(b: nat): int
    requires b < 32
    requires IncDigits(b) <= 20
  {
    IncDigits(b) * U32 - ZeroOrPowerOf10(IncDigits(b))
  }

  function IncDigits(b: nat): nat
    requires b < 32
  {
    if b < 16 then INC_DIGITS_0[b] else INC_DIGITS_16[b - 16]
  }

  lemma IncListed0()
    ensures Listed(INC_DIGITS_0, 1)
  {
  }

  lemma IncListed16()
    ensures Listed(INC_DIGITS_16, 0x1_0000)
  {
  }

  lemma IncRows0()
    ensures Rows(INC_DIGITS_0, 0)
  {
    IncListed0();
    WordPower(0);
    RowsListed(INC_DIGITS_0, 0, 1);
  }

  lemma IncRows16()
    ensures Rows(INC_DIGITS_16, 16)
  {
    IncListed16();
    WordPower(1);
    RowsListed(INC_DIGITS_16, 16, 0x1_0000);
  }

  lemma IncRow(b: nat)
    requires b < 32
    ensures Row(IncDigits(b), Pow(2, b))
  {
    if b < 16 {
      IncRows0();
    } else {
      IncRows16();
    }
  }

  lemma Counted32(n: nat)
    requires n < U32
    ensures BitLength(n) < 32 && IncDigits(BitLength(n)) <= 20
    ensures var d := IncDigits(BitLength(n));
      CountDigits(n) == d - if n < ZeroOrPowerOf10(d) then 1 else 0
  {
    WordPower(2);
    BitScanFits(WithLowBit(n), 32);
    IncRow(BitLength(n));
    RowCounts(n, IncDigits(BitLength(n)));
  }

  /** The carry into the upper half is the comparison with T. */
  function DoCountDigits32(n: nat): (count: int)
    requires n < U32
    ensures count == CountDigits(n)
  {
    Counted32(n);
    PowersFit(IncDigits(BitLength(n)));
    (n + FmtInc(BitLength(n))) / U32
  }

  lemma PowersFit(digits: nat)
    requires digits <= 20
    ensures digits <= 10 ==> ZeroOrPowerOf10(digits) < U32
  {
  }

  // ----- Printing -----

  /** The decimal representation of n. */
  function Decimal(n: nat): (s: string)
    ensures |s| == CountDigits(n)
  {
    if n < 10 then [CharOf(n)] else Decimal(n / 10) + [CharOf(n % 10)]
  }

  /** Proper digits that stand for n, without superfluous zeros in front. */
  lemma {:induction false} DecimalDenotes(n: nat)
    ensures DigitsValue(Decimal(n)) == n
    ensures forall k :: 0 <= k < |Decimal(n)| ==> IsDigit(Decimal(n)[k])
    ensures n > 0 ==> Decimal(n)[0] != '0'
    decreases n
  {
    if n < 10 {
      assert [CharOf(n)][..0] == [];
    } else {
      DecimalDenotes(n / 10);
      DigitAppend(Decimal(n / 10), CharOf(n % 10));
    }
  }

  /** The pair of digits of a number below 100. */
  function Digits2(n: nat): (s: string)
    requires n < 100
    ensures |s| == 2
  {
    [CharOf(n / 10), CharOf(n % 10)]
  }

  lemma TwoDigits(n: nat)
    ensures n >= 100 ==> Decimal(n) == Decimal(n / 100) + Digits2(n % 100)
    ensures 10 <= n < 100 ==> Decimal(n) == Digits2(n)
  {
    var tens := n / 10;
    assert tens / 10 == n / 100 && n % 100 / 10 == tens % 10 && n % 100 % 10 == n % 10;
    assert n >= 100 ==> Decimal(tens) == Decimal(tens / 10) + [CharOf(tens % 10)];
    assert 10 <= n < 100 ==> Decimal(tens) == [CharOf(tens)];
  }

  method Copy2(dst: array<char>, at: nat, src: string)
    requires at + 2 <= dst.Length && |src| == 2
    modifies dst
    ensures dst[..] == old(dst[..])[..at] + src + old(dst[..])[at + 2..]
  {
    dst[at] := src[0];
    dst[at + 1] := src[1];
  }

  /** The buffer with a tail written so that it ends at `size`. */
  predicate Filled(s: string, s0: string, size: nat, tail: string) {
    |tail| <= size <= |s0| && s == s0[..size - |tail|] + tail + s0[size..]
  }

  /** Digits put in front of those already there. */
  method PutDigits(out: array<char>, begin: nat, put: string, ghost s0: string, ghost size: nat, ghost tail: string)
    requires Filled(out[..], s0, size, tail) && begin + |put| + |tail| == size && |put| == 2
    modifies out
    ensures Filled(out[..], s0, size, put + tail)
  {
    ghost var s := out[..];
    assert s[begin + 2..] == tail + s0[size..];
    Copy2(out, begin, put);
  }

  /** Writes value right-aligned into the first `size` characters; what is in front of it stays. */
  method FormatDecimal(out: array<char>, value: nat, size: nat) returns (begin: nat)
    requires CountDigits(value) <= size <= out.Length
    modifies out
    ensures begin == size - CountDigits(value)
    ensures out[..] == old(out[..])[..begin] + Decimal(value) + old(out[..])[size..]
  {
    var rest := value;
    begin := size;
    ghost var s0, tail := out[..], "";
    while rest >= 100
      invariant |tail| == size - begin && begin >= CountDigits(rest)
      invariant Filled(out[..], s0, size, tail) && Decimal(value) == Decimal(rest) + tail
    {
      TwoDigits(rest);
      var put := Digits2(rest % 100);
      Regrouped(Decimal(rest / 100), put, tail);
      begin := begin - 2;
      PutDigits(out, begin, put, s0, size, tail);
      rest, tail := rest / 100, put + tail;
    }
    TwoDigits(rest);
    if rest < 10 {
      begin := begin - 1;
      PutDigit(out, begin, CharOf(rest), s0, size, tail);
    } else {
      begin := begin - 2;
      PutDigits(out, begin, Digits2(rest), s0, size, tail);
    }
  }

  method PutDigit(out: array<char>, begin: nat, c: char, ghost s0: string, ghost size: nat, ghost tail: string)
    requires Filled(out[..], s0, size, tail) && begin + 1 + |tail| == size
    modifies out
    ensures Filled(out[..], s0, size, [c] + tail)
  {
    ghost var s := out[..];
    assert s[begin + 1..] == tail + s0[size..];
    out[begin] := c;
    assert out[..] == s[..begin] + [c] + s[begin + 1..];
  }

  lemma Regrouped(a: string, b: string, c: string)
    ensures (a + b) + c == a + (b + c)
  {
  }

  // ----- Parsing -----

  /** End of the run of digits that starts at `at`. */
  function RunEnd(s: string, at: nat): (end: nat)
    requires at <= |s|
    ensures at <= end <= |s|
    ensures forall k :: at <= k < end ==> IsDigit(s[k])
    ensures end < |s| ==> !IsDigit(s[end])
    decreases |s| - at
  {
    if at < |s| && IsDigit(s[at]) then RunEnd(s, at + 1) else at
  }

  /** The int a run of digits stands for, if it has at most ten digits and fits, else the error value. */
  function ParsedInt(run: string, errorValue: int): int {
    if |run| <= 10 && DigitsValue(run) <= INT_MAX then DigitsValue(run) else errorValue
  }

  /** What 32-bit arithmetic leaves of a run of digits. */
  function Wrapped(run: string): int {
    DigitsValue(run) % U32
  }

  lemma WrappedStep(s: string, begin: nat, p: nat)
    requires begin <= p < |s|
    ensures (Wrapped(s[begin..p]) * 10 + DigitOf(s[p])) % U32 == Wrapped(s[begin..p + 1])
  {
    assert s[begin..p + 1] == s[begin..p] + [s[p]];
    DigitAppend(s[begin..p], s[p]);
    WrapAgain(DigitsValue(s[begin..p]), DigitOf(s[p]));
  }

  lemma WrapAgain(v: int, d: int)
    ensures (v % U32 * 10 + d) % U32 == (10 * v + d) % U32
  {
    var x, y := v % U32 * 10 + d, 10 * v + d;
    DivModUnique(y, U32, x / U32 + v / U32 * 10, x % U32);
  }

  /** Unsigned 32-bit arithmetic, which wraps around; ten digits are checked again without. */
  method ParseNonnegativeInt(s: string, begin: nat, errorValue: int) returns (value: int, end: nat)
    requires begin < |s| && IsDigit(s[begin])
    ensures end == RunEnd(s, begin)
    ensures value == ParsedInt(s[begin..end], errorValue)
  {
    var unsigned, prev, p := 0, 0, begin;
    assert s[begin..begin] == "";
    while p == begin || (p < |s| && IsDigit(s[p]))
      invariant begin <= p <= |s| && RunEnd(s, p) == RunEnd(s, begin)
      invariant unsigned == Wrapped(s[begin..p])
      invariant p > begin ==> prev == Wrapped(s[begin..p - 1])
      decreases |s| - p
    {
      prev := unsigned;
      unsigned := (unsigned * 10 + DigitOf(s[p])) % U32;
      WrappedStep(s, begin, p);
      p := p + 1;
    }
    end := p;
    RunBounds(s[begin..end], s[begin..end - 1], errorValue);
    var numDigits := end - begin;
    if numDigits <= 9 {
      return unsigned, end;
    }
    if numDigits == 10 && prev * 10 + DigitOf(s[end - 1]) <= INT_MAX {
      return unsigned, end;
    }
    return errorValue, end;
  }

  /** Nine digits never wrap, and ten are known from the first nine. */
  lemma RunBounds(run: string, front: string, errorValue: int)
    requires run != "" && front == run[..|run| - 1] && forall k :: 0 <= k < |run| ==> IsDigit(run[k])
    ensures |run| <= 9 ==> ParsedInt(run, errorValue) == Wrapped(run)
    ensures var checked := Wrapped(front) * 10 + DigitOf(run[|run| - 1]);
      |run| == 10 ==> ParsedInt(run, errorValue) == if checked <= INT_MAX then Wrapped(run) else errorValue
  {
    DigitsBelow(run);
    DigitsBelow(front);
    PowerTable(9);
    if |run| <= 9 {
      PowGrows(10, |run|, 9);
    }
    assert run == front + [run[|run| - 1]];
    DigitAppend(front, run[|run| - 1]);
  }

  /** Parsing undoes printing on the whole range of int, and on nothing else. */
  lemma ParsesWhatIsPrinted(n: nat, before: string, after: string, errorValue: int)
    requires after == "" || !IsDigit(after[0])
    ensures var s, end := before + Decimal(n) + after, |before| + |Decimal(n)|;
      && RunEnd(s, |before|) == end && s[|before|..end] == Decimal(n)
      && ParsedInt(Decimal(n), errorValue) == if n < Pow(2, 31) then n else errorValue
  {
    var s, end := before + Decimal(n) + after, |before| + |Decimal(n)|;
    DecimalDenotes(n);
    IntHas31Bits();
    assert forall k :: |before| <= k < end ==> s[k] == Decimal(n)[k - |before|];
    WholeRun(s, |before|, end);
    if n <= INT_MAX {
      CountDigitsBounds(n);
      PowerTable(10);
      if CountDigits(n) > 10 {
        PowGrows(10, 10, CountDigits(n) - 1);
      }
    }
  }

  lemma {:induction false} WholeRun(s: string, at: nat, end: nat)
    requires at <= end <= |s| && (forall k :: at <= k < end ==> IsDigit(s[k])) && (end < |s| ==> !IsDigit(s[end]))
    ensures RunEnd(s, at) == end
    decreases end - at
  {
    if at < end {
      WholeRun(s, at + 1, end);
    }
  }
}
