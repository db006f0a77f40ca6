/** Bit-level operations on non-negative unbounded integers, the way Python's
    `&`, `|`, `^`, `<<` and `>>` behave on them. Every operator is defined by
    recursion on the binary digits, and the lemmas below relate each of them to
    the individual bits of its operands. */
module Bits {

  function Pow2(n: nat): (r: nat)
    ensures r >= 1
  {
    if n == 0 then 1 else 2 * Pow2(n - 1)
  }

  /** `Pow2(n) - 1`: the mask of the `n` lowest bits. */
  function LowMask(n: nat): nat
  {
    Pow2(n) - 1
  }

  /** `x << k` */
  function Shl(x: nat, k: nat): nat
  {
    x * Pow2(k)
  }

  /** `x >> k`, one halving per position shifted. */
  function Shr(x: nat, k: nat): nat
  {
    if k == 0 then x else Shr(x / 2, k - 1)
  }

  /** Bit `j` of `x`, bit 0 being the least significant. */
  predicate Bit(x: nat, j: nat)
  {
    if j == 0 then x % 2 == 1 else Bit(x / 2, j - 1)
  }

  /** `a & b` */
  function And(a: nat, b: nat): nat
  {
    if a == 0 || b == 0 then 0
    else 2 * And(a / 2, b / 2) + (if a % 2 == 1 && b % 2 == 1 then 1 else 0)
  }

  /** `a | b` */
  function Or(a: nat, b: nat): nat
  {
    if a == 0 then b
    else if b == 0 then a
    else 2 * Or(a / 2, b / 2) + (if a % 2 == 1 || b % 2 == 1 then 1 else 0)
  }

  /** `a ^ b` */
  function Xor(a: nat, b: nat): nat
  {
    if a == 0 then b
    else if b == 0 then a
    else 2 * Xor(a / 2, b / 2) + (if a % 2 != b % 2 then 1 else 0)
  }

  lemma Pow2Values()
    ensures Pow2(5) == 0x20 && Pow2(8) == 0x100 && Pow2(16) == 0x1_0000
    ensures Pow2(32) == 0x1_0000_0000 && Pow2(48) == 0x1_0000_0000_0000
    ensures Pow2(64) == 0x1_0000_0000_0000_0000
  {
    assert Pow2(5) == 0x20;
    assert Pow2(8) == 0x100;
    assert Pow2(16) == 0x1_0000;
    Pow2Add(16, 16);
    Pow2Add(32, 16);
    Pow2Add(32, 32);
  }

  lemma {:induction false} Pow2Add(a: nat, b: nat)
    ensures Pow2(a + b) == Pow2(a) * Pow2(b)
  {
    if a > 0 {
      Pow2Add(a - 1, b);
    }
  }

  lemma {:induction false} Pow2Monotone(a: nat, b: nat)
    requires a <= b
    ensures Pow2(a) <= Pow2(b)
  {
    if a < b {
      Pow2Monotone(a, b - 1);
    }
  }

  /** Euclidean division is unique: the quotient and remainder are determined. */
  lemma DivModUnique(x: int, d: int, q: int, r: int)
    requires d > 0 && 0 <= r < d && x == d * q + r
    ensures x / d == q && x % d == r
  {
    var q', r' := x / d, x % d;
    assert x == d * q' + r';
    if q' > q {
      assert d * q' >= d * (q + 1) by { MulMonotone(d, q + 1, q'); }
      assert false;
    } else if q' < q {
      assert d * q >= d * (q' + 1) by { MulMonotone(d, q' + 1, q); }
      assert false;
    }
  }

  lemma MulMonotone(d: int, a: int, b: int)
    requires d >= 0 && a <= b
    ensures d * a <= d * b
  {
    assert d * b - d * a == d * (b - a);
  }

  /** Dividing by `2p` is halving, then dividing by `p`. */
  lemma DivModDouble(x: nat, p: nat)
    requires p >= 1
    ensures x / (2 * p) == (x / 2) / p
    ensures x % (2 * p) == 2 * ((x / 2) % p) + x % 2
  {
    var q, r := (x / 2) / p, (x / 2) % p;
    assert x / 2 == p * q + r;
    assert x == (2 * p) * q + (2 * r + x % 2);
    DivModUnique(x, 2 * p, q, 2 * r + x % 2);
  }

  lemma {:induction false} BitZero(j: nat)
    ensures !Bit(0, j)
  {
    if j > 0 {
      BitZero(j - 1);
    }
  }

  lemma {:induction false} BitOfAnd(a: nat, b: nat, j: nat)
    ensures Bit(And(a, b), j) == (Bit(a, j) && Bit(b, j))
  {
    if a == 0 || b == 0 {
      BitZero(j);
    } else if j > 0 {
      BitOfAnd(a / 2, b / 2, j - 1);
    }
  }

  lemma {:induction false} BitOfOr(a: nat, b: nat, j: nat)
    ensures Bit(Or(a, b), j) == (Bit(a, j) || Bit(b, j))
  {
    if a == 0 || b == 0 {
      BitZero(j);
    } else if j > 0 {
      BitOfOr(a / 2, b / 2, j - 1);
    }
  }

  lemma {:induction false} BitOfXor(a: nat, b: nat, j: nat)
    ensures Bit(Xor(a, b), j) == (Bit(a, j) != Bit(b, j))
  {
    if a == 0 || b == 0 {
      BitZero(j);
    } else if j > 0 {
      BitOfXor(a / 2, b / 2, j - 1);
    }
  }

  lemma {:induction false} BitOfShl(x: nat, k: nat, j: nat)
    ensures Bit(Shl(x, k), j) == (j >= k && Bit(x, j - k))
  {
    if k > 0 {
      var y := Shl(x, k - 1);
      assert Shl(x, k) == 2 * y;
      if j > 0 {
        BitOfShl(x, k - 1, j - 1);
      }
    }
  }

  lemma {:induction false} BitOfShr(x: nat, k: nat, j: nat)
    ensures Bit(Shr(x, k), j) == Bit(x, j + k)
  {
    if k > 0 {
      BitOfShr(x / 2, k - 1, j);
    }
  }

  /** Shifting right by `k` is floor division by `2^k`. */
  lemma {:induction false} ShrIsDiv(x: nat, k: nat)
    ensures Shr(x, k) == x / Pow2(k)
  {
    if k > 0 {
      ShrIsDiv(x / 2, k - 1);
      DivModDouble(x, Pow2(k - 1));
    }
  }

  lemma {:induction false} BitOfLowMask(n: nat, j: nat)
    ensures Bit(LowMask(n), j) == (j < n)
  {
    if n == 0 {
      BitZero(j);
    } else {
      assert LowMask(n) == 2 * LowMask(n - 1) + 1;
      if j > 0 {
        BitOfLowMask(n - 1, j - 1);
      }
    }
  }

  lemma BitOfPow2(k: nat, j: nat)
    ensures Bit(Pow2(k), j) == (j == k)
  {
    assert Pow2(k) == Shl(1, k);
    BitOfShl(1, k, j);
    if j > k {
      assert Bit(1, j - k) == Bit(0, j - k - 1);
      BitZero(j - k - 1);
    }
  }

  /** A value below `2^n` has no bit at or above position `n`. */
  lemma {:induction false} BitAbove(x: nat, n: nat, j: nat)
    requires x < Pow2(n) && j >= n
    ensures !Bit(x, j)
  {
    if n == 0 {
      BitZero(j);
    } else {
      BitAbove(x / 2, n - 1, j - 1);
    }
  }

  /** Masking with the `n` low bits is reduction modulo `2^n`. */
  lemma {:induction false} AndLowMask(x: nat, n: nat)
    ensures And(x, LowMask(n)) == x % Pow2(n)
  {
    if n > 0 && x > 0 {
      var p := Pow2(n - 1);
      var m := LowMask(n);
      assert m == 2 * (p - 1) + 1;
      assert m / 2 == LowMask(n - 1) && m % 2 == 1;
      var h := And(x / 2, LowMask(n - 1));
      assert And(x, m) == 2 * h + x % 2;
      AndLowMask(x / 2, n - 1);
      assert h == (x / 2) % p;
      DivModDouble(x, p);
    }
  }

  /** The mask of bits `k..n-1`, `2^n - 2^k`. */
  function HighMask(n: nat, k: nat): (m: nat)
    requires k <= n
    ensures m + Pow2(k) == Pow2(n)
  {
    Pow2Monotone(k, n);
    Pow2(n) - Pow2(k)
  }

  /** Masking a value below `2^n` with bits `k..n-1` clears its `k` low bits. */
  lemma {:induction false} AndHighMask(x: nat, n: nat, k: nat)
    requires k <= n && x < Pow2(n)
    ensures And(x, HighMask(n, k)) == x - x % Pow2(k)
    decreases n, 1
  {
    if k == 0 {
      assert HighMask(n, 0) == LowMask(n);
      AndLowMask(x, n);
      DivModUnique(x, Pow2(n), 0, x);
      assert And(x, HighMask(n, k)) == x - x % Pow2(k);
    } else if k == n {
      assert HighMask(n, k) == 0;
      DivModUnique(x, Pow2(n), 0, x);
      assert And(x, HighMask(n, k)) == x - x % Pow2(k);
    } else if x == 0 {
      assert And(x, HighMask(n, k)) == x - x % Pow2(k);
    } else {
      AndHighMaskStep(x, n, k);
    }
  }

  /** The recursive case of `AndHighMask`, on the halves of `x` and of the mask. */
  lemma {:induction false} AndHighMaskStep(x: nat, n: nat, k: nat)
    requires 0 < k < n && 0 < x < Pow2(n)
    ensures And(x, HighMask(n, k)) == x - x % Pow2(k)
    decreases n, 0
  {
    var pk := Pow2(k - 1);
    var h := And(x / 2, HighMask(n - 1, k - 1));
    assert And(x, HighMask(n, k)) == 2 * h by { AndOfEvenMask(x, n, k); }
    assert x / 2 < Pow2(n - 1);
    AndHighMask(x / 2, n - 1, k - 1);
    assert h == x / 2 - (x / 2) % pk;
    DivModDouble(x, pk);
  }

  /** One step of `AndHighMask`: the mask is even, so bit 0 of the result is clear. */
  lemma AndOfEvenMask(x: nat, n: nat, k: nat)
    requires 0 < k < n && x > 0
    ensures And(x, HighMask(n, k)) == 2 * And(x / 2, HighMask(n - 1, k - 1))
  {
    var m := HighMask(n, k);
    assert m == 2 * HighMask(n - 1, k - 1);
    assert m > 0 by { Pow2Monotone(k + 1, n); }
    assert m % 2 == 0 && m / 2 == HighMask(n - 1, k - 1);
  }

  /** The low `k` bits and the bits `k..n-1` of a value below `2^n` add up to it. */
  lemma SplitLowHigh(x: nat, n: nat, k: nat)
    requires k <= n && x < Pow2(n)
    ensures And(x, LowMask(k)) + And(x, HighMask(n, k)) == x
  {
    AndLowMask(x, k);
    AndHighMask(x, n, k);
  }

  /** Bits of two values that agree below position `n` agree modulo `2^n`. */
  lemma {:induction false} ModFromBits(x: nat, y: nat, n: nat)
    requires forall j: nat :: j < n ==> Bit(x, j) == Bit(y, j)
    ensures x % Pow2(n) == y % Pow2(n)
  {
    if n > 0 {
      assert Bit(x, 0) == Bit(y, 0);
      forall j: nat | j < n - 1
        ensures Bit(x / 2, j) == Bit(y / 2, j)
      {
        assert Bit(x, j + 1) == Bit(y, j + 1);
      }
      ModFromBits(x / 2, y / 2, n - 1);
      DivModDouble(x, Pow2(n - 1));
      DivModDouble(y, Pow2(n - 1));
    }
  }

  /** `m <= a / d` exactly when `m * d <= a`: floor division as a Galois connection. */
  lemma FloorDivBound(m: int, a: int, d: int)
    requires d > 0
    ensures m <= a / d <==> m * d <= a
  {
    var q, r := a / d, a % d;
    assert a == d * q + r;
    if m <= q {
      MulMonotone(d, m, q);
    } else {
      MulMonotone(d, q + 1, m);
    }
  }
}
