/** Exact integer and modular arithmetic shared by every homomorphic routine:
    Euclidean remainder facts, finite sums, powers of two and bit extraction,
    modular powers, factorials and modular inverses. */
module ModArith {

  /** Uniqueness of quotient and remainder for a positive modulus. */
  lemma DivModUnique(x: int, p: int, q: int, r: int)
    requires p > 0 && 0 <= r < p && x == q * p + r
    ensures x / p == q && x % p == r
  {
    var q', r' := x / p, x % p;
    assert x == q' * p + r';
    assert (q - q') * p == r' - r;
    if q - q' >= 1 {
      MulAtLeast(q - q', p);
    } else if q - q' <= -1 {
      MulAtLeast(q' - q, p);
    }
  }

  lemma MulAtLeast(a: int, p: int)
    requires a >= 1 && p > 0
    ensures a * p >= p
  {
    assert a * p == (a - 1) * p + p;
    assert (a - 1) * p >= 0;
  }

  lemma ModOfSmall(x: int, p: int)
    requires 0 <= x < p
    ensures x % p == x
  {
    DivModUnique(x, p, 0, x);
  }

  /** Adding a multiple of the modulus does not change the remainder. */
  lemma ModAddMultiple(k: int, z: int, p: int)
    requires p > 0
    ensures (k * p + z) % p == z % p
  {
    assert z == (z / p) * p + z % p;
    assert k * p + z == (k + z / p) * p + z % p;
    DivModUnique(k * p + z, p, k + z / p, z % p);
  }

  lemma ModMod(x: int, p: int)
    requires p > 0
    ensures (x % p) % p == x % p
  {
    ModOfSmall(x % p, p);
  }

  lemma ModAdd(a: int, b: int, p: int)
    requires p > 0
    ensures (a + b) % p == (a % p + b % p) % p
  {
    assert a == (a / p) * p + a % p;
    assert b == (b / p) * p + b % p;
    assert a + b == (a / p + b / p) * p + (a % p + b % p);
    ModAddMultiple(a / p + b / p, a % p + b % p, p);
  }

  /** The remainder of a sum of two residues modulo d, without division. */
  lemma WrapSum(x: int, y: int, d: int)
    requires 0 <= x < d && 0 <= y < d
    ensures (x + y) % d == if x + y < d then x + y else x + y - d
  {
    if x + y < d {
      ModOfSmall(x + y, d);
    } else {
      DivModUnique(x + y, d, 1, x + y - d);
    }
  }

  lemma ModAddLeft(a: int, b: int, p: int)
    requires p > 0
    ensures (a % p + b) % p == (a + b) % p
  {
    ModAdd(a, b, p);
    ModAdd(a % p, b, p);
    ModMod(a, p);
  }

  lemma ModSub(a: int, b: int, p: int)
    requires p > 0
    ensures (a - b) % p == (a % p - b % p) % p
  {
    assert a == (a / p) * p + a % p;
    assert b == (b / p) * p + b % p;
    assert a - b == (a / p - b / p) * p + (a % p - b % p);
    ModAddMultiple(a / p - b / p, a % p - b % p, p);
  }

  lemma ModMulLeft(a: int, b: int, p: int)
    requires p > 0
    ensures (a % p * b) % p == (a * b) % p
  {
    var q := a / p;
    assert a == q * p + a % p;
    assert a * b == (q * b) * p + a % p * b by {
      calc {
        a * b;
        (q * p + a % p) * b;
        q * p * b + a % p * b;
        (q * b) * p + a % p * b;
      }
    }
    ModAddMultiple(q * b, a % p * b, p);
  }

  lemma ModMul(a: int, b: int, p: int)
    requires p > 0
    ensures (a * b) % p == (a % p * (b % p)) % p
  {
    ModMulLeft(a, b, p);
    ModMulLeft(b, a % p, p);
    assert a % p * b == b * (a % p);
    assert b % p * (a % p) == a % p * (b % p);
  }

  /** Modular multiplication is associative on remainders. */
  lemma ModMulAssoc(a: int, b: int, c: int, p: int)
    requires p > 0
    ensures ((a * b) % p * c) % p == (a * ((b * c) % p)) % p
  {
    ModMulLeft(a * b, c, p);
    ModMulLeft(b * c, a, p);
    assert (b * c) % p * a == a * ((b * c) % p);
    assert a * b * c == (b * c) * a;
  }

  /** Congruent right factors give congruent products. */
  lemma ModMulCongruent(a: int, b: int, b': int, p: int)
    requires p > 0 && b % p == b' % p
    ensures (a * b) % p == (a * b') % p
  {
    ModMul(a, b, p);
    ModMul(a, b', p);
  }

  /** x is a multiple of p exactly when its remainder is zero. */
  lemma ModOfMultiple(k: int, p: int)
    requires p > 0
    ensures (k * p) % p == 0
  {
    ModAddMultiple(k, 0, p);
  }

  // ---------------------------------------------------------------------------
  // Finite sums over an index range [0, n)
  // ---------------------------------------------------------------------------

  function Sum(n: nat, f: int -> int): int
    decreases n
  {
    if n == 0 then 0 else Sum(n - 1, f) + f(n - 1)
  }

  lemma {:induction false} SumExt(n: nat, f: int -> int, g: int -> int)
    requires forall k :: 0 <= k < n ==> f(k) == g(k)
    ensures Sum(n, f) == Sum(n, g)
  {
    if n > 0 {
      SumExt(n - 1, f, g);
    }
  }

  lemma {:induction false} SumZero(n: nat, f: int -> int)
    requires forall k :: 0 <= k < n ==> f(k) == 0
    ensures Sum(n, f) == 0
  {
    if n > 0 {
      SumZero(n - 1, f);
    }
  }

  /** A sum whose terms vanish except at one index is that term. */
  lemma {:induction false} SumSingle(n: nat, f: int -> int, k0: int)
    requires 0 <= k0 < n
    requires forall k :: 0 <= k < n && k != k0 ==> f(k) == 0
    ensures Sum(n, f) == f(k0)
  {
    if k0 == n - 1 {
      SumZero(n - 1, f);
    } else {
      SumSingle(n - 1, f, k0);
    }
  }

  lemma {:induction false} SumAdd(n: nat, f: int -> int, g: int -> int, h: int -> int)
    requires forall k :: 0 <= k < n ==> h(k) == f(k) + g(k)
    ensures Sum(n, h) == Sum(n, f) + Sum(n, g)
  {
    if n > 0 {
      SumAdd(n - 1, f, g, h);
    }
  }

  lemma {:induction false} SumScale(n: nat, c: int, f: int -> int, h: int -> int)
    requires forall k :: 0 <= k < n ==> h(k) == c * f(k)
    ensures Sum(n, h) == c * Sum(n, f)
  {
    if n > 0 {
      SumScale(n - 1, c, f, h);
      assert c * Sum(n, f) == c * Sum(n - 1, f) + c * f(n - 1);
    }
  }

  /** Splitting the range [0, m + n) at m. */
  lemma {:induction false} SumSplit(m: nat, n: nat, f: int -> int, g: int -> int)
    requires forall k :: 0 <= k < n ==> g(k) == f(m + k)
    ensures Sum(m + n, f) == Sum(m, f) + Sum(n, g)
  {
    if n > 0 {
      SumSplit(m, n - 1, f, g);
    }
  }

  /** Reducing every term modulo p does not change the sum modulo p. */
  lemma {:induction false} SumMod(n: nat, f: int -> int, g: int -> int, p: int)
    requires p > 0
    requires forall k :: 0 <= k < n ==> g(k) == f(k) % p
    ensures Sum(n, g) % p == Sum(n, f) % p
  {
    if n > 0 {
      SumMod(n - 1, f, g, p);
      assert Sum(n, g) == Sum(n - 1, g) + f(n - 1) % p;
      AddCongruent(Sum(n - 1, g), Sum(n - 1, f), f(n - 1), p);
    }
  }

  /** Adding x, reduced or not, to congruent numbers gives congruent sums. */
  lemma AddCongruent(a: int, b: int, x: int, p: int)
    requires p > 0 && a % p == b % p
    ensures (a + x % p) % p == (b + x) % p
  {
    ModAdd(a, x % p, p);
    ModMod(x, p);
    ModAdd(b, x, p);
  }

  /** The j-th column of a doubly indexed family of terms. */
  function Column(f: int -> int -> int, j: int): int -> int {
    i => f(i)(j)
  }

  /** The row sums i => f(i)(0) + ... + f(i)(n - 1) of a family of terms. */
  function RowSums(f: int -> int -> int, n: nat): int -> int {
    i => Sum(n, f(i))
  }

  /** The column sums j => f(0)(j) + ... + f(m - 1)(j) of a family of terms. */
  function ColSums(f: int -> int -> int, m: nat): int -> int {
    j => Sum(m, Column(f, j))
  }

  /** Exchanging the order of a double sum. */
  lemma {:induction false} SumSwap(m: nat, n: nat, f: int -> int -> int)
    ensures Sum(m, RowSums(f, n)) == Sum(n, ColSums(f, m))
  {
    if m == 0 {
      SumZero(n, ColSums(f, m));
    } else {
      SumSwap(m - 1, n, f);
      SumAdd(n, ColSums(f, m - 1), f(m - 1), ColSums(f, m));
    }
  }

  /** Summing over a cyclic shift of [0, d) is summing over [0, d). */
  lemma {:induction false} SumRotate(d: nat, c: int, f: int -> int, g: int -> int)
    requires 0 <= c < d
    requires forall k :: 0 <= k < d ==> g(k) == f((c + k) % d)
    ensures Sum(d, g) == Sum(d, f)
  {
    // g lists f(c), ..., f(d - 1) and then f(0), ..., f(c - 1)
    var m: nat := d - c;
    SumTwoBlocks(m, c, f, g, k => g(m + k), k => f(c + k));
  }

  lemma {:induction false} SumTwoBlocks(m: nat, c: nat, f: int -> int, g: int -> int, head: int -> int, tail: int -> int)
    requires m >= 1
    requires forall k :: 0 <= k < m + c ==> g(k) == f((c + k) % (m + c))
    requires forall k :: 0 <= k < c ==> head(k) == g(m + k)
    requires forall k :: 0 <= k < m ==> tail(k) == f(c + k)
    ensures Sum(m + c, g) == Sum(c + m, f)
  {
    forall k | 0 <= k < m
      ensures g(k) == tail(k)
    {
      ModOfSmall(c + k, m + c);
    }
    forall k | 0 <= k < c
      ensures head(k) == f(k)
    {
      RotateWrap(m + c, c, k);
    }
    SumSplit(m, c, g, head);
    SumExt(m, g, tail);
    SumExt(c, head, f);
    SumSplit(c, m, f, tail);
  }

  lemma RotateWrap(d: nat, c: int, k: int)
    requires 0 <= c < d && 0 <= k < c
    ensures (c + (d - c + k)) % d == k
  {
    assert c + (d - c + k) == 1 * d + k;
    ModAddMultiple(1, k, d);
    ModOfSmall(k, d);
  }

  // ---------------------------------------------------------------------------
  // Powers of two, bits and logarithms
  // ---------------------------------------------------------------------------

  function Pow2(k: nat): (r: nat)
    ensures r >= 1
  {
    if k == 0 then 1 else 2 * Pow2(k - 1)
  }

  lemma {:induction false} Pow2Add(a: nat, b: nat)
    ensures Pow2(a + b) == Pow2(a) * Pow2(b)
  {
    if b > 0 {
      Pow2Add(a, b - 1);
    }
  }

  lemma {:induction false} Pow2Monotone(a: nat, b: nat)
    requires a <= b
    ensures Pow2(a) <= Pow2(b)
  {
    if a < b {
      Pow2Monotone(a, b - 1);
    }
  }

  /** Bit i of x: what `x >> i & 1` reads for a non-negative x. */
  function Bit(x: nat, i: nat): (b: nat)
    ensures b <= 1
    decreases i
  {
    if i == 0 then x % 2 else Bit(x / 2, i - 1)
  }

  /** A value of the source's 32-bit `int` type. */
  predicate IsInt32(x: int) {
    -0x8000_0000 <= x < 0x8000_0000
  }

  /** The low 32 bits of x as an unsigned value: the bits that `x >> i & 1`
      reads, for i < 32, from a 32-bit two's complement integer. */
  function Low32(x: int): (u: nat)
    ensures u < Pow2(32)
  {
    Pow2Of32();
    x % 0x1_0000_0000
  }

  lemma Pow2Of32()
    ensures Pow2(32) == 0x1_0000_0000
  {
    assert Pow2(2) == 4;
    assert Pow2(4) == 16 by { Pow2Add(2, 2); }
    assert Pow2(8) == 256 by { Pow2Add(4, 4); }
    assert Pow2(16) == 0x1_0000 by { Pow2Add(8, 8); }
    Pow2Add(16, 16);
  }

  /** Number of set bits among bits 0 .. L - 1 of x. */
  function CountBits(x: nat, L: nat): nat
    decreases L
  {
    if L == 0 then 0 else x % 2 + CountBits(x / 2, L - 1)
  }

  /** Number of significant bits: the position of the highest set bit plus one. */
  function BitLength(x: nat): nat
    decreases x
  {
    if x == 0 then 0 else 1 + BitLength(x / 2)
  }

  /** x is 2^k for some k. */
  predicate IsPowerOfTwo(x: nat)
    decreases x
  {
    x == 1 || (x >= 2 && x % 2 == 0 && IsPowerOfTwo(x / 2))
  }

  /** Halving splits off the lowest bit below a power of two. */
  lemma ModDouble(x: nat, P: nat)
    requires P >= 1
    ensures x % (2 * P) == x % 2 + 2 * ((x / 2) % P)
  {
    var q, r := (x / 2) / P, (x / 2) % P;
    assert x / 2 == P * q + r;
    assert x == 2 * (x / 2) + x % 2;
    assert x == (2 * P) * q + (2 * r + x % 2);
    DivModUnique(x, 2 * P, q, 2 * r + x % 2);
  }

  /** Reducing modulo 2^(i+1) adds bit i on top of the reduction modulo 2^i. */
  lemma ModPow2Step(x: nat, i: nat)
    ensures Bit(x, i) == 0 ==> x % Pow2(i + 1) == x % Pow2(i)
    ensures Bit(x, i) == 1 ==> x % Pow2(i + 1) == x % Pow2(i) + Pow2(i)
  {
    ModPow2Sum(x, i);
  }

  lemma {:induction false} ModPow2Sum(x: nat, i: nat)
    ensures x % Pow2(i + 1) == x % Pow2(i) + Bit(x, i) * Pow2(i)
    decreases i
  {
    if i == 0 {
      ModOfSmall(0, 1);
      assert x == x * 1 + 0;
      DivModUnique(x, 1, x, 0);
    } else {
      ModDouble(x, Pow2(i));
      ModPow2Sum(x / 2, i - 1);
      ModDouble(x, Pow2(i - 1));
    }
  }

  /** The value of the lowest i bits of x, accumulated bit by bit. */
  function LowBits(x: nat, i: nat): nat
    decreases i
  {
    if i == 0 then 0 else LowBits(x, i - 1) + (if Bit(x, i - 1) == 1 then Pow2(i - 1) else 0)
  }

  /** The lowest i bits of x are x mod 2^i. */
  lemma {:induction false} LowBitsIsMod(x: nat, i: nat)
    ensures LowBits(x, i) == x % Pow2(i)
    decreases i
  {
    if i == 0 {
      ModOne(x);
    } else {
      LowBitsIsMod(x, i - 1);
      ModPow2Step(x, i - 1);
    }
  }

  /** The lowest i bits stay below 2^i and never exceed x; below 2^i they are x. */
  lemma LowBitsBounds(x: nat, i: nat)
    ensures LowBits(x, i) < Pow2(i) && LowBits(x, i) <= x
    ensures x < Pow2(i) ==> LowBits(x, i) == x
  {
    LowBitsIsMod(x, i);
    ModAtMost(x, Pow2(i));
    if x < Pow2(i) {
      ModOfSmall(x, Pow2(i));
    }
  }

  /** Below 2^(i+1), bit i decides whether x reaches 2^i. */
  lemma TopBit(x: nat, i: nat)
    requires x < Pow2(i + 1)
    ensures Bit(x, i) == 1 ==> Pow2(i) <= x
    ensures Bit(x, i) == 0 ==> x < Pow2(i)
  {
    ModPow2Step(x, i);
    ModOfSmall(x, Pow2(i + 1));
  }

  /** No bit at or above position L is set in a number below 2^L. */
  lemma {:induction false} BitAboveIsZero(x: nat, L: nat, i: nat)
    requires x < Pow2(L) && L <= i
    ensures Bit(x, i) == 0
    decreases i
  {
    if i == 0 {
      assert x == 0;
    } else if L == 0 {
      assert x == 0;
      BitAboveIsZero(0, 0, i - 1);
    } else {
      BitAboveIsZero(x / 2, L - 1, i - 1);
    }
  }

  /** Counting one more bit adds bit i. */
  lemma {:induction false} CountBitsStep(x: nat, i: nat)
    ensures CountBits(x, i + 1) == CountBits(x, i) + Bit(x, i)
    decreases i
  {
    if i > 0 {
      CountBitsStep(x / 2, i - 1);
    }
  }

  /** Below 2^L, counting further bits adds nothing. */
  lemma {:induction false} CountBitsHigh(x: nat, L: nat, M: nat)
    requires x < Pow2(L) && L <= M
    ensures CountBits(x, M) == CountBits(x, L)
    decreases L
  {
    if L == 0 {
      CountBitsZero(0, M);
    } else {
      CountBitsHigh(x / 2, L - 1, M - 1);
    }
  }

  /** Below 2^L - 1, some bit among the lowest L is clear. */
  lemma {:induction false} CountBitsBelowAllOnes(x: nat, L: nat)
    requires L >= 1 && x < Pow2(L) - 1
    ensures CountBits(x, L) < L
    decreases L
  {
    if x % 2 == 0 {
      CountBitsAtMost(x / 2, L - 1);
    } else if L > 1 {
      CountBitsBelowAllOnes(x / 2, L - 1);
    }
  }

  lemma {:induction false} CountBitsAtMost(x: nat, L: nat)
    ensures CountBits(x, L) <= L
    decreases L
  {
    if L > 0 {
      CountBitsAtMost(x / 2, L - 1);
    }
  }

  /** Every number is a multiple of 1. */
  lemma ModOne(x: int)
    ensures x % 1 == 0
  {
    DivModUnique(x, 1, x, 0);
  }

  /** The remainder of a non-negative number does not exceed it. */
  lemma ModAtMost(x: nat, m: nat)
    requires m > 0
    ensures x % m <= x
  {
    assert x == (x / m) * m + x % m;
    if x / m >= 1 {
      MulAtLeast(x / m, m);
    }
  }

  /** The bit length of a positive x brackets it between powers of two. */
  lemma {:induction false} BitLengthBounds(x: nat)
    requires x >= 1
    ensures BitLength(x) >= 1
    ensures Pow2(BitLength(x) - 1) <= x < Pow2(BitLength(x))
    decreases x
  {
    if x >= 2 {
      BitLengthBounds(x / 2);
    }
  }

  /** A number in [2^(k-1), 2^k) has bit length k. */
  lemma {:induction false} BitLengthOfRange(x: nat, k: nat)
    requires k >= 1 && Pow2(k - 1) <= x < Pow2(k)
    ensures BitLength(x) == k
    decreases k
  {
    if k > 1 {
      BitLengthOfRange(x / 2, k - 1);
    }
  }

  /** A count of zero set bits below 2^L means zero. */
  lemma {:induction false} CountBitsZero(x: nat, L: nat)
    requires x < Pow2(L)
    ensures CountBits(x, L) == 0 <==> x == 0
    decreases L
  {
    if L > 0 {
      CountBitsZero(x / 2, L - 1);
    }
  }

  /** Below 2^L, exactly one set bit means a power of two. */
  lemma {:induction false} CountBitsOne(x: nat, L: nat)
    requires x < Pow2(L)
    ensures CountBits(x, L) == 1 <==> IsPowerOfTwo(x)
    decreases L
  {
    if L > 0 {
      CountBitsZero(x / 2, L - 1);
      CountBitsOne(x / 2, L - 1);
    }
  }

  /** A power of two is 2^k with k its bit length minus one. */
  lemma {:induction false} PowerOfTwoIsPow2(x: nat)
    requires IsPowerOfTwo(x)
    ensures x == Pow2(BitLength(x) - 1) && BitLength(x) >= 1
    decreases x
  {
    if x >= 2 {
      PowerOfTwoIsPow2(x / 2);
    }
  }

  lemma {:induction false} Pow2IsPowerOfTwo(k: nat)
    ensures IsPowerOfTwo(Pow2(k))
    ensures BitLength(Pow2(k)) == k + 1
  {
    if k > 0 {
      Pow2IsPowerOfTwo(k - 1);
    }
  }

  /** The smallest L with 2^L >= n: the integer form of ceil(log2 n). */
  function CeilLog2(n: nat): (L: nat)
    decreases n
  {
    if n <= 1 then 0 else 1 + CeilLog2((n + 1) / 2)
  }

  lemma {:induction false} CeilLog2Bounds(n: nat)
    requires n >= 1
    ensures Pow2(CeilLog2(n)) >= n
    ensures CeilLog2(n) >= 1 ==> Pow2(CeilLog2(n) - 1) < n
  {
    if n > 1 {
      CeilLog2Bounds((n + 1) / 2);
    }
  }

  // ---------------------------------------------------------------------------
  // Modular powers, factorials, inverses
  // ---------------------------------------------------------------------------

  /** x^e modulo p, one factor at a time. */
  function PowMod(x: int, e: nat, p: int): (r: int)
    requires p > 0
    ensures 0 <= r < p
    decreases e
  {
    if e == 0 then 1 % p else (PowMod(x, e - 1, p) * x) % p
  }

  /** Exponents add: x^a * x^b = x^(a + b) modulo p. */
  lemma {:induction false} PowModAdd(x: int, a: nat, b: nat, p: int)
    requires p > 0
    ensures (PowMod(x, a, p) * PowMod(x, b, p)) % p == PowMod(x, a + b, p)
    decreases b
  {
    if b == 0 {
      if p == 1 {
        assert PowMod(x, a, p) == 0;
      } else {
        ModOfSmall(1, p);
        ModOfSmall(PowMod(x, a, p), p);
      }
    } else {
      PowModAdd(x, a, b - 1, p);
      ModMulAssoc(PowMod(x, a, p), PowMod(x, b - 1, p), x, p);
      ModMulLeft(PowMod(x, a, p) * PowMod(x, b - 1, p), x, p);
    }
  }

  /** The first power of a residue is itself. */
  lemma PowModOne(x: int, p: int)
    requires 0 <= x < p && p >= 2
    ensures PowMod(x, 1, p) == x
  {
    ModOfSmall(1, p);
    ModOfSmall(x, p);
  }

  function Fact(n: nat): (r: nat)
    ensures r >= 1
  {
    if n == 0 then 1 else n * Fact(n - 1)
  }

  predicate IsPrime(p: int) {
    p >= 2 && forall d :: 2 <= d < p ==> p % d != 0
  }

  /** Extended Euclid: the gcd g of a and b with Bezout coefficients x, y. */
  function ExtGcd(a: nat, b: nat): (r: (nat, int, int))
    ensures r.0 == a * r.1 + b * r.2
    ensures a + b >= 1 ==> r.0 >= 1 && a % r.0 == 0 && b % r.0 == 0
    decreases b
  {
    if b == 0 then
      (a, 1, 0)
    else
      var (g, x, y) := ExtGcd(b, a % b);
      GcdStep(a, b, g, x, y);
      (g, y, x - (a / b) * y)
  }

  /** One step of Euclid: a common divisor of b and a mod b divides a, and the
      Bezout identity for (b, a mod b) carries back to (a, b). */
  lemma GcdStep(a: nat, b: nat, g: nat, x: int, y: int)
    requires b >= 1 && g == b * x + (a % b) * y
    requires g >= 1 ==> b % g == 0 && (a % b) % g == 0
    ensures g == a * y + b * (x - (a / b) * y)
    ensures g >= 1 ==> a % g == 0
  {
    BezoutBack(a, b, g, x, y);
    if g >= 1 {
      DividesBack(a, b, g);
    }
  }

  /** The Bezout identity for (b, a mod b) gives one for (a, b). */
  lemma BezoutBack(a: nat, b: nat, g: int, x: int, y: int)
    requires b >= 1 && g == b * x + (a % b) * y
    ensures g == a * y + b * (x - (a / b) * y)
  {
    var q, r := a / b, a % b;
    assert a == q * b + r;
    assert a * y == q * b * y + r * y by {
      assert a * y == (q * b + r) * y;
    }
    assert b * (x - q * y) == b * x - q * b * y;
  }

  /** A common divisor of b and a mod b divides a. */
  lemma DividesBack(a: nat, b: nat, g: nat)
    requires b >= 1 && g >= 1 && b % g == 0 && (a % b) % g == 0
    ensures a % g == 0
  {
    var q, kb, kr := a / b, b / g, (a % b) / g;
    assert a == q * b + a % b;
    assert b == kb * g;
    assert a % b == kr * g;
    assert a == (q * kb + kr) * g by {
      assert q * b == q * kb * g;
    }
    ModOfMultiple(q * kb + kr, g);
  }

  /** A positive multiple of g is at least g. */
  lemma DivisorAtMost(a: nat, g: nat)
    requires a >= 1 && g >= 1 && a % g == 0
    ensures g <= a
  {
    assert a == (a / g) * g;
    MulAtLeast(a / g, g);
  }

  /** Modulo a prime, a non-zero residue has gcd 1 with the modulus. */
  lemma GcdWithPrime(a: nat, p: nat)
    requires IsPrime(p) && 0 < a < p
    ensures ExtGcd(a, p).0 == 1
  {
    var g := ExtGcd(a, p).0;
    DivisorAtMost(a, g);
  }

  /** modInverse: the inverse of a modulo p, computed by extended Euclid. */
  function ModInverse(a: int, p: nat): (r: int)
    requires p >= 2
    ensures 0 <= r < p
    ensures IsPrime(p) && a % p != 0 ==> (r * a) % p == 1
  {
    var x := ExtGcd(a % p, p).1;
    InverseFromBezout(a, p);
    x % p
  }

  lemma InverseFromBezout(a: int, p: nat)
    requires p >= 2
    ensures IsPrime(p) && a % p != 0 ==> ((ExtGcd(a % p, p).1 % p) * a) % p == 1
  {
    if IsPrime(p) && a % p != 0 {
      var (g, x, y) := ExtGcd(a % p, p);
      GcdWithPrime(a % p, p);
      assert 1 == (a % p) * x + p * y;
      calc {
        ((x % p) * a) % p;
        { ModMulLeft(x, a, p); }
        (x * a) % p;
        { ModMulLeft(a, x, p); assert x * a == a * x; assert (a % p) * x == x * (a % p) ; }
        ((a % p) * x) % p;
        { ModAddMultiple(y, (a % p) * x, p); assert p * y == y * p; }
        (y * p + (a % p) * x) % p;
        { ModOfSmall(1, p); }
        1;
      }
    }
  }

  /** modFactorial: n! modulo p, accumulated one factor at a time. */
  function ModFactorial(n: nat, p: nat): (r: int)
    requires p >= 1
    ensures r == Fact(n) % p
    decreases n
  {
    if n == 0 then
      1 % p
    else
      ModMulLeft(Fact(n - 1), n, p);
      assert Fact(n) == Fact(n - 1) * n;
      (ModFactorial(n - 1, p) * n) % p
  }

  /** Euclid's lemma: a prime dividing a product divides a factor. */
  lemma EuclidPrime(a: int, b: int, p: nat)
    requires IsPrime(p) && a % p != 0 && b % p != 0
    ensures (a * b) % p != 0
  {
    var inv := ModInverse(a, p);
    CancelFactor(a, b, p, inv);
  }

  /** Multiplying a * b by an inverse of a modulo p recovers b modulo p. */
  lemma CancelFactor(a: int, b: int, p: int, inv: int)
    requires p > 0 && (inv * a) % p == 1
    ensures b % p == ((a * b) % p * inv) % p
  {
    var ia, ab := inv * a, a * b;
    assert b % p == (ia * b) % p by {
      ModMulLeft(ia, b, p);
      assert ia % p * b == b;
    }
    assert ia * b == ab * inv by {
      MulRegroup(inv, a, b);
    }
    ModMulLeft(ab, inv, p);
  }

  lemma MulRegroup(x: int, y: int, z: int)
    ensures (x * y) * z == (y * z) * x
  {
  }

  /** n! is not a multiple of a prime p larger than n. */
  lemma {:induction false} FactNotMultiple(n: nat, p: nat)
    requires IsPrime(p) && n < p
    ensures Fact(n) % p != 0
  {
    if n == 0 {
      ModOfSmall(1, p);
    } else {
      FactNotMultiple(n - 1, p);
      ModOfSmall(n, p);
      EuclidPrime(n, Fact(n - 1), p);
    }
  }
}
