// Integer helpers shared by the models: powers of two, the `next_power_of_two`,
// `trailing_zeros` and `bits` operations of Rust's integer types and of the
// big-integer library, and decimal formatting as done by `format!("{}", n)`.
module Numbers {

  /** 2^k. */
  function Pow2(k: nat): (r: nat)
    ensures r >= 1
  {
    if k == 0 then 1 else 2 * Pow2(k - 1)
  }

  lemma {:induction false} Pow2Add(a: nat, b: nat)
    ensures Pow2(a + b) == Pow2(a) * Pow2(b)
  {
    if a > 0 {
      Pow2Add(a - 1, b);
    }
  }

  lemma {:induction false} Pow2Monotone(a: nat, b: nat)
    requires a <= b
    ensures Pow2(a) <= Pow2(b)
  {
    if a < b {
      Pow2Monotone(a, b - 1);
    }
  }

  lemma {:induction false} Pow2StrictlyMonotone(a: nat, b: nat)
    requires a < b
    ensures Pow2(a) < Pow2(b)
  {
    Pow2Monotone(a, b - 1);
  }

  /** The exponent of the smallest power of two that is at least n; it is what
      `n.next_power_of_two().trailing_zeros()` computes (0 for n <= 1). */
  function CeilLog2(n: nat): nat
  {
    if n <= 1 then 0 else 1 + CeilLog2((n + 1) / 2)
  }

  /** Rust's `next_power_of_two` on unbounded naturals: the smallest power of two
      that is >= n (1 for n == 0). */
  function NextPow2(n: nat): nat
  {
    Pow2(CeilLog2(n))
  }

  lemma {:induction false} CeilLog2Covers(n: nat)
    ensures Pow2(CeilLog2(n)) >= n
  {
    if n > 1 {
      CeilLog2Covers((n + 1) / 2);
    }
  }

  lemma {:induction false} CeilLog2Least(n: nat, k: nat)
    requires Pow2(k) >= n
    ensures CeilLog2(n) <= k
  {
    if n > 1 {
      assert k >= 1;
      assert 2 * Pow2(k - 1) >= n;
      CeilLog2Least((n + 1) / 2, k - 1);
    }
  }

  /** `next_power_of_two` is a power of two, covers n, and no smaller power of
      two does. */
  lemma {:induction false} NextPow2Spec(n: nat)
    ensures NextPow2(n) >= n && NextPow2(n) >= 1
    ensures forall k: nat :: Pow2(k) >= n ==> NextPow2(n) <= Pow2(k)
  {
    CeilLog2Covers(n);
    forall k: nat | Pow2(k) >= n
      ensures NextPow2(n) <= Pow2(k)
    {
      CeilLog2Least(n, k);
      Pow2Monotone(CeilLog2(n), k);
    }
  }

  /** A power of two is its own `next_power_of_two`. */
  lemma {:induction false} NextPow2OfPow2(k: nat)
    ensures CeilLog2(Pow2(k)) == k && NextPow2(Pow2(k)) == Pow2(k)
  {
    if k > 0 {
      NextPow2OfPow2(k - 1);
      assert (Pow2(k) + 1) / 2 == Pow2(k - 1);
    }
  }

  /** The number of significant bits of n (0 for n == 0), as returned by
      `BigInt::bits()`. */
  function Bits(n: nat): nat
  {
    if n == 0 then 0 else 1 + Bits(n / 2)
  }

  lemma {:induction false} BitsBounds(n: nat)
    ensures n < Pow2(Bits(n))
    ensures n > 0 ==> Pow2(Bits(n) - 1) <= n
  {
    if n > 0 {
      BitsBounds(n / 2);
    }
  }

  // ---------------------------------------------------------------------
  // Decimal formatting of naturals (`format!("{}", n)` for unsigned n).

  function DigitChar(d: nat): char
    requires d < 10
  {
    "0123456789"[d]
  }

  predicate IsDigit(c: char)
  {
    '0' <= c <= '9'
  }

  /** Decimal representation without leading zeros. */
  function Dec(n: nat): (s: string)
    ensures |s| >= 1
    ensures forall i :: 0 <= i < |s| ==> IsDigit(s[i])
    decreases n
  {
    if n < 10 then [DigitChar(n)] else Dec(n / 10) + [DigitChar(n % 10)]
  }

  function DigitValue(c: char): nat
    requires IsDigit(c)
  {
    (c as int - '0' as int) as nat
  }

  /** The value of a string of decimal digits. */
  function DecValue(s: string): nat
    requires forall i :: 0 <= i < |s| ==> IsDigit(s[i])
  {
    if s == [] then 0 else 10 * DecValue(s[..|s| - 1]) + DigitValue(s[|s| - 1])
  }

  /** Reading back a formatted natural gives the natural. */
  lemma {:induction false} DecRoundTrip(n: nat)
    ensures DecValue(Dec(n)) == n
    decreases n
  {
    if n < 10 {
      assert Dec(n)[..0] == [];
    } else {
      DecRoundTrip(n / 10);
      assert Dec(n)[..|Dec(n)| - 1] == Dec(n / 10);
    }
  }

  lemma {:induction false} DecInjective(a: nat, b: nat)
    requires Dec(a) == Dec(b)
    ensures a == b
  {
    DecRoundTrip(a);
    DecRoundTrip(b);
  }
}
