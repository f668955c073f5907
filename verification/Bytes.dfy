/** Bytes and fixed-width little-endian integers, as `memcpy` lays them out. */
module Bytes {
  import Powers

  type Byte = b: int | 0 <= b < 256

  const U16_LIMIT := 0x1_0000
  const U64_LIMIT := 0x1_0000_0000_0000_0000

  /** The low `width` bytes of `n`, least significant first; of a negative one, its two's complement. */
  function Le(n: int, width: nat): (s: seq<Byte>)
    ensures |s| == width
    decreases width, n
  {
    if width == 0 then [] else [n % 256] + Le(n / 256, width - 1)
  }

  function FromLe(s: seq<Byte>): (n: nat)
  {
    if s == [] then 0 else s[0] + 256 * FromLe(s[1..])
  }

  function Pow256(k: nat): (p: nat)
    ensures p > 0
  {
    if k == 0 then 1 else 256 * Pow256(k - 1)
  }

  lemma Pow256Values()
    ensures Pow256(1) == 256
    ensures Pow256(2) == U16_LIMIT
    ensures Pow256(4) == 0x1_0000_0000
    ensures Pow256(8) == U64_LIMIT
  {
    assert Pow256(1) == 256;
    assert Pow256(2) == 256 * Pow256(1);
    assert Pow256(4) == 256 * Pow256(3) == 256 * (256 * Pow256(2));
    assert Pow256(6) == 256 * Pow256(5) == 256 * (256 * Pow256(4));
    assert Pow256(8) == 256 * Pow256(7) == 256 * (256 * Pow256(6));
  }

  /** Reading back what was written loses exactly the bits above the width. */
  lemma {:induction false} FromLeOfLe(n: nat, width: nat)
    requires n < Pow256(width)
    ensures FromLe(Le(n, width)) == n
    decreases width
  {
    if width > 0 {
      assert n / 256 < Pow256(width - 1);
      FromLeOfLe(n / 256, width - 1);
      assert Le(n, width)[1..] == Le(n / 256, width - 1);
    }
  }

  /** A negative number comes back as its complement. */
  lemma {:induction false} FromLeOfNegative(n: int, width: nat)
    requires n < 0 <= n + Pow256(width)
    ensures FromLe(Le(n, width)) == n + Pow256(width)
    decreases width
  {
    if width > 0 {
      assert n / 256 < 0 <= n / 256 + Pow256(width - 1);
      FromLeOfNegative(n / 256, width - 1);
      assert Le(n, width)[1..] == Le(n / 256, width - 1);
    }
  }

  lemma {:induction false} LeOfFromLe(s: seq<Byte>)
    ensures Le(FromLe(s), |s|) == s
    ensures FromLe(s) < Pow256(|s|)
  {
    if s != [] {
      LeOfFromLe(s[1..]);
      assert FromLe(s) % 256 == s[0] && FromLe(s) / 256 == FromLe(s[1..]);
    }
  }

  /** Byte k of a number is its digit at 256 to the k. */
  lemma {:induction false} LeDigit(n: nat, width: nat, k: nat)
    requires k < width
    ensures Le(n, width)[k] == n / Pow256(k) % 256
    decreases k
  {
    if k > 0 {
      LeDigit(n / 256, width - 1, k - 1);
      DivDiv(n, 256, Pow256(k - 1));
    }
  }

  lemma DivDiv(n: nat, a: nat, b: nat)
    requires a > 0 && b > 0
    ensures a * b > 0 && n / (a * b) == n / a / b
  {
    var q, r := n / a, n % a;
    var q', r' := q / b, q % b;
    Powers.MulLe(1, a, 1, b);
    Powers.Distribute(q' * b, r', a);
    Powers.MulAssoc(q', b, a);
    Powers.MulLe(r' + 1, b, a, a);
    Powers.Distribute(r', 1, a);
    assert q * a + r == q' * (b * a) + (r' * a + r);
    Powers.DivModUnique(n, b * a, q', r' * a + r);
    assert a * b == b * a;
  }

  lemma U16RoundTrip(n: nat)
    requires n < U16_LIMIT
    ensures FromLe(Le(n, 2)) == n
  {
    Pow256Values();
    FromLeOfLe(n, 2);
  }

  lemma U64RoundTrip(n: nat)
    requires n < U64_LIMIT
    ensures FromLe(Le(n, 8)) == n
  {
    Pow256Values();
    FromLeOfLe(n, 8);
  }

  lemma U16Bound(s: seq<Byte>)
    requires |s| == 2
    ensures FromLe(s) < U16_LIMIT
  {
    Pow256Values();
    LeOfFromLe(s);
  }

  /** The two pieces of a concatenation, cut where it was joined. */
  lemma Cut<T>(a: seq<T>, b: seq<T>)
    ensures (a + b)[..|a|] == a
    ensures (a + b)[|a|..] == b
  {
  }

  /** The first `n` elements from position `i` on, and those after them. */
  lemma Window<T>(s: seq<T>, i: nat, n: nat)
    requires i + n <= |s|
    ensures s[i..][..n] == s[i..i + n]
    ensures s[i..][n..] == s[i + n..]
  {
  }

  lemma Regroup<T>(a: seq<T>, b: seq<T>, c: seq<T>)
    ensures a + (b + c) == a + b + c
  {
  }

  lemma CancelPrefix<T>(a: seq<T>, b: seq<T>, c: seq<T>)
    ensures a + b == a + c <==> b == c
  {
    Cut(a, b);
    Cut(a, c);
  }
}
