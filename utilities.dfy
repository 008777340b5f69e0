/** Integer helpers of the estimator: cyclic index arithmetic in its true-modulo
    form and in the mask form used with power-of-two capacities, and the
    power-of-two sizing of the event buffer. The source works on a 32-bit
    two's-complement `int`; the bounds it must stay within are explicit here. */
module Utilities {

  const INT_MIN: int := -0x8000_0000
  const INT_MAX: int := 0x7fff_ffff
  /** 2^32: the period of the 32-bit bit pattern. */
  const WORD: int := 0x1_0000_0000

  predicate IsInt32(v: int) {
    INT_MIN <= v <= INT_MAX
  }

  function Abs(v: int): nat {
    if v < 0 then -v else v
  }

  /** 2^k */
  function Pow2(k: nat): (r: nat)
    ensures r >= 1
  {
    if k == 0 then 1 else 2 * Pow2(k - 1)
  }

  /** m is one of 1, 2, 4, 8, ... */
  predicate IsPow2(m: int)
    decreases if m > 0 then m else 0
  {
    m == 1 || (m > 1 && m % 2 == 0 && IsPow2(m / 2))
  }

  lemma {:induction false} Pow2IsPow2(k: nat)
    ensures IsPow2(Pow2(k))
  {
    if k > 0 {
      Pow2IsPow2(k - 1);
      assert Pow2(k) / 2 == Pow2(k - 1);
    }
  }

  lemma {:induction false} Pow2Add(a: nat, b: nat)
    ensures Pow2(a + b) == Pow2(a) * Pow2(b)
  {
    if a > 0 {
      Pow2Add(a - 1, b);
    }
  }

  lemma Pow2Word()
    ensures Pow2(32) == WORD
  {
    assert Pow2(8) == 0x100;
    Pow2Add(8, 8);
    Pow2Add(16, 16);
  }

  /** The two halves of Euclidean division are determined by the bounds on the remainder. */
  lemma DivModUnique(u: int, d: int, t: int, r: int)
    requires 0 < d && 0 <= r < d && u == d * t + r
    ensures u / d == t && u % d == r
  {
    var k := t - u / d;
    assert d * k == u % d - r;
    ProductBelowFactor(d, k);
  }

  /** A multiple of d strictly between -d and d is zero. */
  lemma ProductBelowFactor(d: int, k: int)
    requires 0 < d && -d < d * k < d
    ensures k == 0
  {
    if k >= 1 {
      ProductAtLeastFactor(d, k);
    } else if k <= -1 {
      ProductAtLeastFactor(d, -k);
    }
  }

  lemma ProductAtLeastFactor(d: int, k: int)
    requires 0 < d && 1 <= k
    ensures d <= d * k
  {
  }

  /** Reducing the left operand first does not change a sum's residue. */
  lemma ModAddLeft(a: int, b: int, m: int)
    requires 0 < m
    ensures (a % m + b) % m == (a + b) % m
  {
    var q := (a % m + b) / m;
    var r := (a % m + b) % m;
    assert a + b == m * (a / m + q) + r;
    DivModUnique(a + b, m, a / m + q, r);
  }

  /** Two steps around a ring of m slots are one step of their sum. */
  lemma ModAddTwice(a: int, k: int, j: int, m: int)
    requires 0 < m
    ensures ((a + k) % m + j) % m == (a + (k + j)) % m
  {
    ModAddLeft(a + k, j, m);
  }

  /** Residues modulo a divisor of M survive a reduction modulo M. */
  lemma ModOfMod(v: int, m: int, M: int)
    requires 0 < m && 0 < M && M % m == 0
    ensures (v % M) % m == v % m
  {
    var w := v % M;
    assert v == M * (v / M) + w;
    assert M == m * (M / m);
    assert v == m * ((M / m) * (v / M) + w / m) + w % m;
    DivModUnique(v, m, (M / m) * (v / M) + w / m, w % m);
  }

  /** Bitwise AND of two non-negative integers, least significant bit first. */
  function BitAnd(a: nat, b: nat): nat
    decreases a
  {
    if a == 0 || b == 0 then 0
    else 2 * BitAnd(a / 2, b / 2) + (if a % 2 == 1 && b % 2 == 1 then 1 else 0)
  }

  lemma {:induction false} BitAndSelf(a: nat)
    ensures BitAnd(a, a) == a
  {
    if a > 0 {
      BitAndSelf(a / 2);
    }
  }

  /** The classic test `(m & (m - 1)) == 0` recognises exactly the powers of two. */
  lemma {:induction false} PowerOfTwoTest(m: int)
    requires 1 <= m
    ensures BitAnd(m, m - 1) == 0 <==> IsPow2(m)
    decreases m
  {
    if m > 1 {
      if m % 2 == 1 {
        BitAndSelf(m / 2);
        assert (m - 1) / 2 == m / 2;
      } else {
        assert (m - 1) / 2 == m / 2 - 1;
        PowerOfTwoTest(m / 2);
      }
    }
  }

  /** u % m with m = 2^j is u with every bit from position j up cleared. */
  lemma {:induction false} MaskIsMod(u: nat, m: int)
    requires IsPow2(m)
    ensures BitAnd(u, m - 1) == u % m
    decreases m
  {
    if m > 1 && u > 0 {
      var h := m / 2;
      assert m == 2 * h && (m - 1) / 2 == h - 1 && (m - 1) % 2 == 1;
      MaskIsMod(u / 2, h);
      HalveMod(u, h);
    }
  }

  /** Dropping the lowest bit and taking the rest modulo h gives u modulo 2h. */
  lemma HalveMod(u: nat, h: int)
    requires 0 < h
    ensures u % (2 * h) == 2 * ((u / 2) % h) + u % 2
  {
    var q, b := u / 2, u % 2;
    var t, s := q / h, q % h;
    assert u == 2 * q + b;
    assert q == h * t + s;
    assert u == (2 * h) * t + (2 * s + b);
    DivModUnique(u, 2 * h, t, 2 * s + b);
  }

  /** A power of two divides every larger power of two. */
  lemma {:induction false} Pow2Divides(m: int, M: int)
    requires IsPow2(m) && IsPow2(M) && m <= M
    ensures M % m == 0
    decreases M
  {
    if m > 1 {
      Pow2Divides(m / 2, M / 2);
      assert M == m * ((M / 2) / (m / 2));
      DivModUnique(M, m, (M / 2) / (m / 2), 0);
    }
  }

  /** The bit pattern of a 32-bit two's-complement value, read as unsigned. */
  function Unsigned32(v: int): (u: nat)
    requires IsInt32(v)
    ensures u < WORD && u % WORD == v % WORD
  {
    v % WORD
  }

  /** The assertion of `fastAddCyclic`: n > 0 and `((n + 1) & n) == 0`. */
  predicate IsMask(n: int) {
    0 < n && BitAnd(n + 1, n) == 0
  }

  lemma MaskIsPow2Minus1(n: int)
    requires 0 < n
    ensures IsMask(n) <==> IsPow2(n + 1)
  {
    PowerOfTwoTest(n + 1);
  }

  /** `fastAddCyclic`: `(x + a) & n`, for a mask n = 2^m - 1, is the residue of
      x + a modulo n + 1, whatever the sign of x + a. */
  function FastAddCyclic(x: int, a: int, n: int): (r: int)
    requires IsInt32(x) && IsInt32(a) && IsInt32(x + a) && IsInt32(n)
    requires IsMask(n)
    ensures 0 <= r <= n
    ensures r == (x + a) % (n + 1)
  {
    MaskIsPow2Minus1(n);
    MaskIsMod(Unsigned32(x + a), n + 1);
    Pow2Word();
    Pow2IsPow2(32);
    Pow2Divides(n + 1, WORD);
    ModOfMod(x + a, n + 1, WORD);
    BitAnd(Unsigned32(x + a), n)
  }

  /** Stepping forward one slot in a ring of m slots. */
  lemma SuccMod(x: int, m: int)
    requires m != 0
    ensures 0 <= x < m ==> (x + 1) % m == if x == m - 1 then 0 else x + 1
  {
    if 0 <= x < m {
      if x == m - 1 {
        DivModUnique(x + 1, m, 1, 0);
      } else {
        DivModUnique(x + 1, m, 0, x + 1);
      }
    }
  }

  /** Stepping back one slot in a ring of m slots. */
  lemma PredMod(x: int, m: int)
    requires m != 0
    ensures 0 <= x < m ==> (x - 1) % m == if x == 0 then m - 1 else x - 1
  {
    if 0 <= x < m {
      if x == 0 {
        DivModUnique(x - 1, m, -1, m - 1);
      } else {
        DivModUnique(x - 1, m, 0, x - 1);
      }
    }
  }

  /** `fastIncrementCyclic`: the next slot of a ring of n + 1 slots. */
  function FastIncrementCyclic(x: int, n: int): (r: int)
    requires IsInt32(x) && IsInt32(x + 1) && IsInt32(n) && IsMask(n)
    ensures 0 <= r <= n
    ensures 0 <= x <= n ==> r == if x == n then 0 else x + 1
  {
    SuccMod(x, n + 1);
    FastAddCyclic(x, 1, n)
  }

  /** `fastDecrementCyclic`: the previous slot of a ring of n + 1 slots. */
  function FastDecrementCyclic(x: int, n: int): (r: int)
    requires IsInt32(x) && IsInt32(x - 1) && IsInt32(n) && IsMask(n)
    ensures 0 <= r <= n
    ensures 0 <= x <= n ==> r == if x == 0 then n else x - 1
  {
    PredMod(x, n + 1);
    FastAddCyclic(x, -1, n)
  }

  /** On the slots of the ring the two fast steps undo each other. */
  lemma FastCyclicInverse(x: int, n: int)
    requires n < INT_MAX && IsMask(n) && 0 <= x <= n
    ensures FastDecrementCyclic(FastIncrementCyclic(x, n), n) == x
    ensures FastIncrementCyclic(FastDecrementCyclic(x, n), n) == x
  {
  }

  /** C++ `%` on int: the quotient is truncated toward zero, so the remainder
      takes the sign of the dividend. */
  function TruncRem(v: int, d: int): (r: int)
    requires d != 0
    ensures Abs(r) < Abs(d)
    ensures v >= 0 ==> r >= 0
    ensures v < 0 ==> r <= 0
    ensures (v - r) % Abs(d) == 0
  {
    TruncRemFacts(v, Abs(d));
    if v >= 0 then v % Abs(d) else -((-v) % Abs(d))
  }

  lemma TruncRemFacts(v: int, m: int)
    requires 0 < m
    ensures var r := if v >= 0 then v % m else -((-v) % m);
      -m < r < m && (v >= 0 ==> r >= 0) && (v < 0 ==> r <= 0) && (v - r) % m == 0
  {
    if v >= 0 {
      assert v - v % m == m * (v / m);
      MultipleMod(v / m, m);
    } else {
      var w := -v;
      assert w - w % m == m * (w / m);
      assert v + w % m == m * -(w / m);
      MultipleMod(-(w / m), m);
    }
  }

  lemma MultipleMod(k: int, m: int)
    requires 0 < m
    ensures (m * k) % m == 0
  {
    DivModUnique(m * k, m, k, 0);
  }

  /** `addCyclic`: `(x + a + n) % n` with the C++ remainder. It is the true
      residue of x + a only when x + a + n is not negative. */
  function AddCyclic(x: int, a: int, n: int): (r: int)
    requires n != 0
    requires IsInt32(x) && IsInt32(a) && IsInt32(n) && IsInt32(x + a) && IsInt32(x + a + n)
    ensures 0 < n && 0 <= x + a + n ==> 0 <= r < n && r == (x + a) % n
    ensures 0 < n && x + a + n < 0 ==> r <= 0
  {
    if 0 < n then
      ShiftByModulus(x + a, n);
      TruncRem(x + a + n, n)
    else
      TruncRem(x + a + n, n)
  }

  /** Adding the modulus once does not change a residue. */
  lemma ShiftByModulus(v: int, n: int)
    requires 0 < n
    ensures (v + n) % n == v % n
  {
    DivModUnique(v + n, n, v / n + 1, v % n);
  }

  /** `incrementCyclic`: the next slot of a ring of n slots. */
  function IncrementCyclic(x: int, n: int): (r: int)
    requires n != 0
    requires IsInt32(x) && IsInt32(n) && IsInt32(x + 1) && IsInt32(x + 1 + n)
    ensures 0 <= x < n ==> r == if x == n - 1 then 0 else x + 1
  {
    SuccMod(x, n);
    AddCyclic(x, 1, n)
  }

  /** `decrementCyclic`: the previous slot of a ring of n slots. */
  function DecrementCyclic(x: int, n: int): (r: int)
    requires n != 0
    requires IsInt32(x) && IsInt32(n) && IsInt32(x - 1) && IsInt32(x - 1 + n)
    ensures 0 <= x < n ==> r == if x == 0 then n - 1 else x - 1
  {
    PredMod(x, n);
    AddCyclic(x, -1, n)
  }

  lemma CyclicInverse(x: int, n: int)
    requires 0 <= x < n && n <= INT_MAX / 2
    ensures DecrementCyclic(IncrementCyclic(x, n), n) == x
    ensures IncrementCyclic(DecrementCyclic(x, n), n) == x
  {
  }

  /** Halving a quotient is dividing by twice the divisor. */
  lemma DivHalf(a: nat, b: nat)
    requires 0 < b
    ensures (a / b) / 2 == a / (2 * b)
  {
    var q := (a / b) / 2;
    var r := a % b + b * ((a / b) % 2);
    assert a == b * (a / b) + a % b;
    assert a / b == 2 * q + (a / b) % 2;
    assert a == (2 * b) * q + r;
    DivModUnique(a, 2 * b, q, r);
  }

  lemma Pow2Thirty()
    ensures Pow2(30) == 0x4000_0000
  {
    assert Pow2(7) == 0x80;
    assert Pow2(8) == 0x100;
    Pow2Add(8, 7);
    Pow2Add(15, 15);
  }

  lemma IsPow2Positive(m: int)
    requires IsPow2(m)
    ensures 1 <= m
  {
  }

  /** A power of two below twice a power of two B is at most B. */
  lemma {:induction false} Pow2Below(r: int, B: int)
    requires IsPow2(r) && IsPow2(B) && r < 2 * B
    ensures r <= B
    decreases r
  {
    if r > 1 {
      IsPow2Positive(r / 2);
      if B > 1 {
        Pow2Below(r / 2, B / 2);
      }
    }
  }

  /** A quotient of naturals is positive only when the divisor fits in the dividend. */
  lemma QuotientPositive(a: int, b: int)
    requires 0 <= a && 0 < b
    ensures a / b > 0 <==> b <= a
  {
    if a < b {
      DivModUnique(a, b, 0, a);
    } else {
      DivModUnique(a, b, a / b, a % b);
      assert a / b != 0;
    }
  }

  /** `nextPower2`: decrement n, then halve it until it is 0, counting the
      halvings i; the result is 2^i. This is the least power of two that is
      at least n, and 1 for every n <= 1 (the loop body never runs). */
  method NextPower2(n0: int) returns (r: int)
    requires INT_MIN < n0 <= 0x4000_0000
    ensures IsPow2(r) && r <= 0x4000_0000
    ensures n0 <= r
    ensures r == 1 || r / 2 < n0
    ensures n0 <= 1 ==> r == 1
  {
    var n := n0 - 1;
    var i: nat := 0;
    while n > 0
      invariant n0 - 1 <= 0 ==> i == 0 && n == n0 - 1
      invariant 0 < n0 - 1 ==> n == (n0 - 1) / Pow2(i)
      invariant 0 < i ==> Pow2(i - 1) <= n0 - 1
    {
      QuotientPositive(n0 - 1, Pow2(i));
      DivHalf(n0 - 1, Pow2(i));
      n := n / 2;
      i := i + 1;
    }
    r := Pow2(i);
    Pow2IsPow2(i);
    if 0 < n0 - 1 {
      QuotientPositive(n0 - 1, Pow2(i));
    }
    Pow2Thirty();
    Pow2IsPow2(30);
    Pow2Below(r, 0x4000_0000);
  }
}
