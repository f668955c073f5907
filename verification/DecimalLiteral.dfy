/** The recogniser of decimal literals in tools/unpacker/argparse.hpp against the grammar it implements. */
module DecimalLiteral {
  import opened DecimalDigits

  // ----- The grammar -----

  predicate AllDigits(s: string) {
    forall k :: 0 <= k < |s| ==> IsDigit(s[k])
  }

  predicate DigitSequence(s: string) {
    s != "" && AllDigits(s)
  }

  predicate SignOpt(s: string) {
    s == "" || s == "+" || s == "-"
  }

  predicate PostE(s: string) {
    exists k :: 0 <= k <= |s| && SignOpt(s[..k]) && DigitSequence(s[k..])
  }

  predicate ExponentPart(s: string) {
    s != "" && (s[0] == 'e' || s[0] == 'E') && PostE(s[1..])
  }

  predicate ExponentPartOpt(s: string) {
    s == "" || ExponentPart(s)
  }

  predicate PostDecimalPoint(s: string) {
    exists k :: 0 <= k <= |s| && DigitSequence(s[..k]) && ExponentPartOpt(s[k..])
  }

  predicate FractionalPart(s: string) {
    s != "" && s[0] == '.' && PostDecimalPoint(s[1..])
  }

  predicate PointExponentOpt(s: string) {
    s != "" && s[0] == '.' && ExponentPartOpt(s[1..])
  }

  predicate NonzeroDigitSequence(s: string) {
    s != "" && '1' <= s[0] <= '9' && AllDigits(s[1..])
  }

  predicate DecimalLiteral(s: string) {
    || s == "0"
    || NonzeroDigitSequence(s)
    || (exists k :: 0 <= k <= |s| && DigitSequence(s[..k]) && FractionalPart(s[k..]))
    || FractionalPart(s)
    || (exists k :: 0 <= k <= |s| && DigitSequence(s[..k]) && PointExponentOpt(s[k..]))
    || (exists k :: 0 <= k <= |s| && DigitSequence(s[..k]) && ExponentPart(s[k..]))
  }

  // ----- Digits are consumed greedily -----

  /** Length of the longest prefix of digits. */
  function Digits(s: string): (n: nat)
    ensures n <= |s| && AllDigits(s[..n]) && (n < |s| ==> !IsDigit(s[n]))
  {
    if s != "" && IsDigit(s[0]) then
      assert s[..1 + Digits(s[1..])] == [s[0]] + s[1..][..Digits(s[1..])];
      1 + Digits(s[1..])
    else
      0
  }

  lemma {:induction false} GreedySplit(s: string, k: nat)
    requires k <= |s| && AllDigits(s[..k]) && (k < |s| ==> !IsDigit(s[k]))
    ensures k == Digits(s)
    decreases k
  {
    if k > 0 {
      assert s[..k][0] == s[0] && s[1..][..k - 1] == s[..k][1..];
      GreedySplit(s[1..], k - 1);
    }
  }

  /** What may follow the digits of an integer part. */
  predicate AfterInteger(s: string) {
    FractionalPart(s) || PointExponentOpt(s) || ExponentPart(s)
  }

  lemma PostDecimalPointGreedy(s: string)
    ensures PostDecimalPoint(s) <==> Digits(s) > 0 && ExponentPartOpt(s[Digits(s)..])
  {
    var n := Digits(s);
    if PostDecimalPoint(s) {
      var k :| 0 <= k <= |s| && DigitSequence(s[..k]) && ExponentPartOpt(s[k..]);
      assert k < |s| ==> s[k..][0] == s[k];
      GreedySplit(s, k);
    }
    if n > 0 && ExponentPartOpt(s[n..]) {
      assert DigitSequence(s[..n]);
    }
  }

  lemma PostEGreedy(s: string)
    ensures var rest := if s != "" && (s[0] == '-' || s[0] == '+') then s[1..] else s;
      PostE(s) <==> Digits(rest) > 0 && Digits(rest) == |rest|
  {
    var signed := s != "" && (s[0] == '-' || s[0] == '+');
    var from := if signed then 1 else 0;
    var rest := s[from..];
    if PostE(s) {
      var k :| 0 <= k <= |s| && SignOpt(s[..k]) && DigitSequence(s[k..]);
      assert IsDigit(s[k..][0]);
      assert k == from;
      assert rest[..|rest|] == rest;
      GreedySplit(rest, |rest|);
    }
    if Digits(rest) > 0 && Digits(rest) == |rest| {
      assert rest[..|rest|] == rest;
      assert SignOpt(s[..from]) && DigitSequence(s[from..]);
    }
  }

  lemma LiteralGreedy(s: string)
    requires s != "" && IsDigit(s[0])
    ensures DecimalLiteral(s) <==> s == "0" || NonzeroDigitSequence(s) || AfterInteger(s[Digits(s)..])
  {
    var n := Digits(s);
    assert n > 0 && DigitSequence(s[..n]);
    forall k | 0 <= k <= |s| && DigitSequence(s[..k]) && AfterInteger(s[k..])
      ensures k == n
    {
      assert s[k..][0] == s[k];
      GreedySplit(s, k);
    }
  }

  lemma LiteralWithZero(s: string)
    requires s != "" && s[0] == '0'
    ensures DecimalLiteral(s) <==> s[1..] == "" || AfterInteger(s[1..][Digits(s[1..])..])
  {
    LiteralGreedy(s);
    assert s[1..][Digits(s[1..])..] == s[Digits(s)..];
    assert s[1..] == "" ==> s == "0";
  }

  lemma LiteralWithNonzero(s: string)
    requires s != "" && '1' <= s[0] <= '9'
    ensures DecimalLiteral(s) <==> s[Digits(s)..] == "" || AfterInteger(s[Digits(s)..])
  {
    LiteralGreedy(s);
    var n := Digits(s);
    if NonzeroDigitSequence(s) {
      assert forall k :: 0 < k < |s| ==> s[k] == s[1..][k - 1];
      GreedySplit(s, |s|);
    }
    if n == |s| {
      assert s[..n] == s;
    }
  }

  lemma LiteralWithoutDigits(s: string)
    requires s == "" || !IsDigit(s[0])
    ensures DecimalLiteral(s) <==> FractionalPart(s)
  {
    assert forall k :: 0 < k <= |s| ==> s[..k][0] == s[0];
  }

  // ----- The recogniser -----

  const EOF := -1

  function Lookahead(s: string): int {
    if s == "" then EOF else s[0] as int
  }

  predicate IsDigitCode(c: int) {
    '0' as int <= c <= '9' as int
  }

  method ConsumeDigits(s: string) returns (rest: string)
    ensures rest == s[Digits(s)..]
  {
    var it := 0;
    while it < |s| && IsDigit(s[it])
      invariant it <= |s| && AllDigits(s[..it])
    {
      it := it + 1;
    }
    GreedySplit(s, it);
    rest := s[it..];
  }

  method IsDecimalLiteral(s: string) returns (accepted: bool)
    ensures accepted <==> DecimalLiteral(s)
  {
    var c := Lookahead(s);
    if c == '0' as int {
      LiteralWithZero(s);
      var rest := s[1..];
      if rest == "" {
        accepted := true;
      } else {
        accepted := IntegerPart(rest);
      }
    } else if '1' as int <= c <= '9' as int {
      LiteralWithNonzero(s);
      var rest := ConsumeDigits(s);
      if rest == "" {
        accepted := true;
      } else {
        accepted := IntegerPartConsumed(rest);
      }
    } else {
      LiteralWithoutDigits(s);
      if c == '.' as int {
        accepted := PostDecimalPointLabel(s[1..]);
      } else {
        accepted := false;
      }
    }
  }

  method IntegerPart(s: string) returns (accepted: bool)
    ensures accepted <==> AfterInteger(s[Digits(s)..])
  {
    var rest := ConsumeDigits(s);
    accepted := IntegerPartConsumed(rest);
  }

  method IntegerPartConsumed(s: string) returns (accepted: bool)
    requires s != "" ==> !IsDigit(s[0])
    ensures accepted <==> AfterInteger(s)
  {
    var c := Lookahead(s);
    if c == '.' as int {
      var rest := s[1..];
      PostDecimalPointGreedy(rest);
      if IsDigitCode(Lookahead(rest)) {
        accepted := PostDecimalPointLabel(rest);
      } else {
        accepted := ExponentPartOptLabel(rest);
      }
    } else if c == 'e' as int || c == 'E' as int {
      accepted := PostELabel(s[1..]);
    } else {
      accepted := false;
    }
  }

  method PostDecimalPointLabel(s: string) returns (accepted: bool)
    ensures accepted <==> PostDecimalPoint(s)
  {
    PostDecimalPointGreedy(s);
    if IsDigitCode(Lookahead(s)) {
      var rest := ConsumeDigits(s);
      accepted := ExponentPartOptLabel(rest);
    } else {
      accepted := false;
    }
  }

  method ExponentPartOptLabel(s: string) returns (accepted: bool)
    ensures accepted <==> ExponentPartOpt(s)
  {
    var c := Lookahead(s);
    if c == EOF {
      accepted := true;
    } else if c == 'e' as int || c == 'E' as int {
      accepted := PostELabel(s[1..]);
    } else {
      accepted := false;
    }
  }

  method PostELabel(s: string) returns (accepted: bool)
    ensures accepted <==> PostE(s)
  {
    PostEGreedy(s);
    var rest := s;
    if Lookahead(s) == '-' as int || Lookahead(s) == '+' as int {
      rest := s[1..];
    }
    if IsDigitCode(Lookahead(rest)) {
      rest := ConsumeDigits(rest);
      accepted := rest == "";
    } else {
      accepted := false;
    }
  }
}
