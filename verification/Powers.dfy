/**
 Powers of two and shifts over the natural numbers. `Shl` and `Shr` are the unbounded
 forms of `<<` and `>>`, and `Low` keeps the bits below a position, as `& mask(n)` does.
 All three are defined bit by bit, so their laws need no multiplication.
 */
module Powers {

  function Pow2(n: nat): (p: nat)
    ensures p > 0
  {
    if n == 0 then 1 else 2 * Pow2(n - 1)
  }

  function Shl(x: nat, n: nat): nat {
    if n == 0 then x else 2 * Shl(x, n - 1)
  }

  function Shr(x: nat, n: nat): nat {
    if n == 0 then x else Shr(x, n - 1) / 2
  }

  function Low(x: nat, n: nat): (r: nat)
    ensures r < Pow2(n)
    ensures x == Shl(Shr(x, n), n) + r
  {
    ShrBelow(x, n);
    x - Shl(Shr(x, n), n)
  }

  lemma {:induction false} ShrBelow(x: nat, n: nat)
    ensures 0 <= x - Shl(Shr(x, n), n) < Pow2(n)
  {
    if n > 0 {
      ShrBelow(x, n - 1);
      var s := Shr(x, n - 1);
      ShlAdd(2 * (s / 2), s % 2, n - 1);
      ShlDouble(s / 2, n - 1);
      ShlOne(n - 1);
      ShlZero(n - 1);
    }
  }

  lemma {:induction false} ShlAdd(x: nat, y: nat, n: nat)
    ensures Shl(x + y, n) == Shl(x, n) + Shl(y, n)
  {
    if n > 0 {
      ShlAdd(x, y, n - 1);
    }
  }

  lemma {:induction false} ShlDouble(x: nat, n: nat)
    ensures Shl(2 * x, n) == 2 * Shl(x, n) == Shl(x, n + 1)
  {
    if n > 0 {
      ShlDouble(x, n - 1);
    }
  }

  lemma {:induction false} ShlZero(n: nat)
    ensures Shl(0, n) == 0
  {
    if n > 0 {
      ShlZero(n - 1);
    }
  }

  lemma {:induction false} ShlOne(n: nat)
    ensures Shl(1, n) == Pow2(n)
  {
    if n > 0 {
      ShlOne(n - 1);
    }
  }

  lemma {:induction false} ShlShl(x: nat, a: nat, b: nat)
    ensures Shl(Shl(x, a), b) == Shl(x, a + b)
  {
    if b > 0 {
      ShlShl(x, a, b - 1);
    }
  }

  lemma {:induction false} ShlOrder(x: nat, y: nat, n: nat)
    ensures x < y <==> Shl(x, n) < Shl(y, n)
    ensures x <= y <==> Shl(x, n) <= Shl(y, n)
  {
    if n > 0 {
      ShlOrder(x, y, n - 1);
    }
  }

  lemma {:induction false} ShlGrows(x: nat, n: nat)
    ensures x <= Shl(x, n)
    ensures n > 0 ==> 2 * x <= Shl(x, n)
  {
    if n > 0 {
      ShlGrows(x, n - 1);
    }
  }

  lemma ShlSuccessor(x: nat, n: nat)
    ensures Shl(x + 1, n) == Shl(x, n) + Pow2(n)
  {
    ShlAdd(x, 1, n);
    ShlOne(n);
  }

  lemma Pow2Double(n: nat)
    requires n > 0
    ensures Pow2(n) == 2 * Pow2(n - 1)
  {
  }

  lemma ShlPow2(a: nat, n: nat)
    ensures Shl(Pow2(a), n) == Pow2(a + n)
  {
    ShlOne(a);
    ShlShl(1, a, n);
    ShlOne(a + n);
  }

  lemma {:induction false} Pow2Monotone(a: nat, b: nat)
    requires a <= b
    ensures Pow2(a) <= Pow2(b)
    ensures a < b ==> 2 * Pow2(a) <= Pow2(b)
    decreases b
  {
    if a < b {
      Pow2Monotone(a, b - 1);
    }
  }

  /** The powers that bound a 64-bit word and a six-bit field. */
  lemma Pow2Word(n: nat)
    ensures n <= 6 ==> Pow2(n) <= 64
    ensures n <= 64 ==> Pow2(n) <= 0x1_0000_0000_0000_0000
    ensures n >= 64 ==> Pow2(n) >= 0x1_0000_0000_0000_0000
  {
    if n <= 6 {
      Pow2Monotone(n, 6);
      assert Pow2(6) == 64;
    }
    Pow2SixtyFour();
    if n <= 64 {
      Pow2Monotone(n, 64);
    } else {
      Pow2Monotone(64, n);
    }
  }

  lemma Pow2SixtyFour()
    ensures Pow2(64) == 0x1_0000_0000_0000_0000
  {
    Pow2Next(0, 1);
    Pow2Next(16, 0x1_0000);
    Pow2Next(32, 0x1_0000_0000);
    Pow2Next(48, 0x1_0000_0000_0000);
  }

  lemma Pow2Next(n: nat, p: nat)
    requires Pow2(n) == p
    ensures Pow2(n + 16) == 0x1_0000 * p
  {
    Pow2Four(n);
    Pow2Four(n + 4);
    Pow2Four(n + 8);
    Pow2Four(n + 12);
  }

  lemma Pow2Four(n: nat)
    ensures Pow2(n + 4) == 16 * Pow2(n)
  {
    assert Pow2(n + 3) == 2 * Pow2(n + 2);
    assert Pow2(n + 2) == 2 * Pow2(n + 1);
  }

  /** Quotient and remainder of a shift are determined by the split they give. */
  lemma SplitUnique(x: nat, n: nat, k: nat, r: nat)
    requires r < Pow2(n) && x == Shl(k, n) + r
    ensures Shr(x, n) == k && Low(x, n) == r
  {
    var s, l := Shr(x, n), Low(x, n);
    if s < k {
      ShlOrder(s + 1, k, n);
      ShlSuccessor(s, n);
    } else if k < s {
      ShlOrder(k + 1, s, n);
      ShlSuccessor(k, n);
    }
  }

  /** A common shift of dividend and divisor keeps the quotient and shifts the remainder. */
  lemma ShrScale(x: nat, n: nat, c: nat)
    ensures Shr(Shl(x, c), n + c) == Shr(x, n)
    ensures Low(Shl(x, c), n + c) == Shl(Low(x, n), c)
  {
    var k, r := Shr(x, n), Low(x, n);
    ShlAdd(Shl(k, n), r, c);
    ShlShl(k, n, c);
    ShlOrder(r, Pow2(n), c);
    ShlPow2(n, c);
    SplitUnique(Shl(x, c), n + c, k, Shl(r, c));
  }

  lemma ShrAtMost(x: nat, n: nat)
    ensures Shr(x, n) <= x && Low(x, n) <= x
  {
    ShlGrows(Shr(x, n), n);
  }

  /** Number of bits in the binary form of `x` (std::bit_width). */
  function BitWidth(x: nat): (w: nat)
    ensures x == 0 <==> w == 0
    ensures x > 0 ==> Pow2(w - 1) <= x
    ensures x < Pow2(w)
  {
    if x == 0 then 0 else 1 + BitWidth(x / 2)
  }

  lemma BitWidthBound(x: nat, n: nat)
    ensures BitWidth(x) <= n <==> x < Pow2(n)
  {
    var w := BitWidth(x);
    if w <= n {
      Pow2Monotone(w, n);
    } else {
      Pow2Monotone(n, w - 1);
    }
  }

  /** A number has at most 64 bits exactly when it fits a 64-bit word. */
  lemma WordWidth(x: nat)
    ensures BitWidth(x) <= 64 <==> x <= 0xFFFF_FFFF_FFFF_FFFF
  {
    Pow2SixtyFour();
    BitWidthBound(x, 64);
  }

  lemma BitWidthShl(x: nat, n: nat)
    requires x > 0
    ensures BitWidth(Shl(x, n)) == BitWidth(x) + n
  {
    hide BitWidth, Shl, Pow2;
    var w := BitWidth(x);
    ShlOrder(Pow2(w - 1), x, n);
    ShlOrder(x, Pow2(w), n);
    ShlPow2(w - 1, n);
    ShlPow2(w, n);
    BitWidthBound(Shl(x, n), w + n);
    BitWidthBound(Shl(x, n), w + n - 1);
  }

  /** Number of trailing zero bits of a non-zero `x` (std::countr_zero). */
  function TrailingZeros(x: nat): (t: nat)
    requires x > 0
    ensures Shl(Shr(x, t), t) == x
    ensures Shr(x, t) % 2 == 1
    ensures t < BitWidth(x)
  {
    if x % 2 == 1 then 0
    else
      var t := TrailingZeros(x / 2);
      var k := Shr(x / 2, t);
      ShlDouble(k, t);
      ShlOrder(0, 1, t + 1);
      SplitUnique(x, t + 1, k, 0);
      t + 1
  }

  /** Odd factors: two odd numbers shifted to the same value are equal, shifts included. */
  lemma OddShifts(a: nat, i: nat, b: nat, j: nat)
    requires a % 2 == 1 && b % 2 == 1 && i <= j
    requires Shl(a, i) == Shl(b, j)
    ensures i == j && a == b
  {
    ShlShl(b, j - i, i);
    ShlOrder(a, Shl(b, j - i), i);
    ShlOrder(Shl(b, j - i), a, i);
    assert a == Shl(b, j - i);
  }
}
