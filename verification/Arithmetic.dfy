/** Arithmetic: powers of two, exact division, and the bitwise operators on natural numbers. */
module Arithmetic {
  function Max(a: nat, b: nat): nat { if a < b then b else a }

  function Pow2(n: nat): (p: nat)
    ensures 1 <= p
  {
    if n == 0 then 1 else 2 * Pow2(n - 1)
  }

  lemma {:induction false} Pow2Add(m: nat, n: nat)
    ensures Pow2(m + n) == Pow2(m) * Pow2(n)
  {
    if m > 0 {
      Pow2Add(m - 1, n);
      assert Pow2(m + n) == 2 * Pow2(m - 1 + n);
    }
  }

  lemma {:induction false} Pow2Monotone(m: nat, n: nat)
    requires m <= n
    ensures Pow2(m) <= Pow2(n)
  {
    if m < n { Pow2Monotone(m, n - 1); }
  }

  lemma Pow2Values()
    ensures Pow2(7) == 128 && Pow2(8) == 0x100 && Pow2(16) == 0x1_0000
    ensures Pow2(24) == 0x100_0000 && Pow2(32) == 0x1_0000_0000
  {
    assert Pow2(4) == 16;
    assert Pow2(6) == 64;
    assert Pow2(7) == 128;
    Pow2Add(8, 8);
    Pow2Add(8, 16);
    Pow2Add(16, 16);
  }

  lemma MulMonotone(a: nat, b: nat, c: nat)
    requires a <= b
    ensures a * c <= b * c && c * a <= c * b
  {
  }

  lemma DivisionUnique(d: nat, q: nat, r: nat, q': nat, r': nat)
    requires r < d && r' < d && d * q + r == d * q' + r'
    ensures q == q' && r == r'
  {
    if q < q' { MulMonotone(q + 1, q', d); }
    if q' < q { MulMonotone(q' + 1, q, d); }
  }

  lemma DivideExactly(n: nat, d: nat, q: nat, r: nat)
    requires r < d && n == d * q + r
    ensures n / d == q && n % d == r
  {
    var q', r' := n / d, n % d;
    assert n == d * q' + r';
    DivisionUnique(d, q, r, q', r');
  }

  lemma DivisionParts(n: nat, d: nat)
    requires 0 < d
    ensures n == d * (n / d) + n % d && 0 <= n % d < d && 0 <= n / d
  {
  }

  // ---- Bits ---------------------------------------------------------------

  function BitAnd(x: nat, y: nat): nat {
    if x == 0 || y == 0 then 0
    else 2 * BitAnd(x / 2, y / 2) + (if x % 2 == 1 && y % 2 == 1 then 1 else 0)
  }

  function BitOr(x: nat, y: nat): nat
    decreases x + y
  {
    if x == 0 && y == 0 then 0
    else 2 * BitOr(x / 2, y / 2) + (if x % 2 == 1 || y % 2 == 1 then 1 else 0)
  }

  function Remainder(x: nat, p: nat): nat
    requires 0 < p
  {
    x % p
  }

  /** The low bits of x are those of its half, shifted, and its last bit. */
  lemma ModuloHalves(x: nat, p: nat)
    requires 0 < p
    ensures Remainder(x, 2 * p) == 2 * Remainder(x / 2, p) + x % 2
  {
    var h := x / 2;
    DivisionParts(h, p);
    var q, r := h / p, h % p;
    assert x == 2 * h + x % 2;
    assert (2 * p) * q == 2 * (p * q);
    DivideExactly(x, 2 * p, q, 2 * r + x % 2);
  }

  lemma AndOfEven(x: nat, h: nat)
    ensures BitAnd(x, 2 * h) == 2 * BitAnd(x / 2, h)
  {
    assert 2 * h / 2 == h && 2 * h % 2 == 0;
  }

  lemma AndOfOdd(x: nat, h: nat)
    ensures BitAnd(x, 2 * h + 1) == 2 * BitAnd(x / 2, h) + x % 2
  {
    assert (2 * h + 1) / 2 == h && (2 * h + 1) % 2 == 1;
  }

  lemma {:induction false} AndAllOnes(x: nat, n: nat)
    requires x < Pow2(n)
    ensures BitAnd(x, Pow2(n) - 1) == x
  {
    if n > 0 {
      var p := Pow2(n - 1);
      assert Pow2(n) == 2 * p;
      hide BitAnd, Pow2;
      AndAllOnes(x / 2, n - 1);
      AndOfOdd(x, p - 1);
    }
  }

  /** Clearing the low bits of the half clears one bit more of the whole. */
  lemma ClearOneMore(x: nat, m: nat, p: nat)
    requires 0 < p && BitAnd(x / 2, m) == x / 2 - Remainder(x / 2, p)
    ensures BitAnd(x, 2 * m) == x - Remainder(x, 2 * p)
  {
    hide BitAnd, Remainder;
    ModuloHalves(x, p);
    AndOfEven(x, m);
  }

  lemma Pow2Halves(x: nat, k: nat, n: nat)
    requires 0 < k <= n && x < Pow2(n)
    ensures Pow2(k - 1) <= Pow2(n - 1) && x / 2 < Pow2(n - 1)
    ensures Pow2(n) - Pow2(k) == 2 * (Pow2(n - 1) - Pow2(k - 1)) && Pow2(k) == 2 * Pow2(k - 1)
  {
    Pow2Monotone(k - 1, n - 1);
  }

  /** Masking with set bits from k up to n clears the low k bits. */
  lemma {:induction false} AndHighBits(x: nat, k: nat, n: nat)
    requires k <= n && x < Pow2(n)
    ensures Pow2(k) <= Pow2(n)
    ensures BitAnd(x, Pow2(n) - Pow2(k)) == x - Remainder(x, Pow2(k))
  {
    Pow2Monotone(k, n);
    hide BitAnd;
    if k == 0 {
      AndAllOnes(x, n);
    } else {
      hide Pow2, Remainder;
      Pow2Halves(x, k, n);
      AndHighBits(x / 2, k - 1, n - 1);
      ClearOneMore(x, Pow2(n - 1) - Pow2(k - 1), Pow2(k - 1));
    }
  }

  lemma {:induction false} OrZero(x: nat)
    ensures BitOr(x, 0) == x
  {
    if x > 0 { OrZero(x / 2); }
  }

  /** Setting the low k bits of a multiple of 2^k adds them. */
  lemma {:induction false} OrLowBits(x: nat, k: nat)
    requires x % Pow2(k) == 0
    ensures BitOr(x, Pow2(k) - 1) == x + Pow2(k) - 1
  {
    if k == 0 {
      OrZero(x);
    } else {
      ModuloHalves(x, Pow2(k - 1));
      OrLowBits(x / 2, k - 1);
      assert (Pow2(k) - 1) / 2 == Pow2(k - 1) - 1;
    }
  }
}
