/** Plaintext reference semantics for the encrypted matrix routines: square
    matrices over the integers modulo p, their product, transpose, powers and
    ordered chain products. */
module Matrices {
  import opened ModArith

  type Mat = seq<seq<int>>

  /** An n x n matrix whose entries are residues modulo p. */
  predicate IsMat(M: Mat, n: nat, p: nat) {
    |M| == n && forall i :: 0 <= i < n ==> |M[i]| == n && forall j :: 0 <= j < n ==> 0 <= M[i][j] < p
  }

  /** All matrices of a list are n x n residue matrices. */
  predicate AllMats(Ms: seq<Mat>, n: nat, p: nat) {
    forall k :: 0 <= k < |Ms| ==> IsMat(Ms[k], n, p)
  }

  /** Entry (i, j), reading zero outside the matrix. */
  function At(M: Mat, i: int, j: int): int {
    if 0 <= i < |M| && 0 <= j < |M[i]| then M[i][j] else 0
  }

  /** Entry t of a vector, zero outside it. */
  function VAt(v: seq<int>, t: int): int {
    if 0 <= t < |v| then v[t] else 0
  }

  /** The terms of the (i, j) entry of A * B. */
  function Terms(A: Mat, B: Mat, i: int, j: int): int -> int {
    t => At(A, i, t) * At(B, t, j)
  }

  /** Matrix product modulo p; the size is taken from A. */
  function MatMul(A: Mat, B: Mat, p: nat): (C: Mat)
    requires p >= 1
    ensures IsMat(C, |A|, p)
  {
    seq(|A|, i => seq(|A|, j => Sum(|A|, Terms(A, B, i, j)) % p))
  }

  function Transpose(M: Mat): (T: Mat)
    ensures |T| == |M|
  {
    seq(|M|, i => seq(|M|, j => At(M, j, i)))
  }

  /** Matrix-vector product modulo p: entry r is row r dotted with v. */
  function MatVec(M: Mat, v: seq<int>, p: nat): (w: seq<int>)
    requires p >= 1
    ensures |w| == |M|
  {
    seq(|M|, r => Sum(|M|, t => At(M, r, t) * VAt(v, t)) % p)
  }

  /** Vector-matrix product modulo p: entry c is v dotted with column c. */
  function VecMat(v: seq<int>, M: Mat, p: nat): (w: seq<int>)
    requires p >= 1
    ensures |w| == |M|
  {
    seq(|M|, c => Sum(|M|, t => VAt(v, t) * At(M, t, c)) % p)
  }

  lemma TransposeIsMat(M: Mat, n: nat, p: nat)
    requires IsMat(M, n, p)
    ensures IsMat(Transpose(M), n, p)
    ensures forall i, j :: 0 <= i < n && 0 <= j < n ==> Transpose(M)[i][j] == M[j][i]
  {
  }

  /** A vector times M is the transposed matrix times the vector. */
  lemma VecMatTranspose(v: seq<int>, M: Mat, n: nat, p: nat)
    requires p >= 1 && IsMat(M, n, p)
    ensures VecMat(v, M, p) == MatVec(Transpose(M), v, p)
  {
    var T := Transpose(M);
    forall c | 0 <= c < n
      ensures VecMat(v, M, p)[c] == MatVec(T, v, p)[c]
    {
      SumExt(n, t => VAt(v, t) * At(M, t, c), t => At(T, c, t) * VAt(v, t));
    }
  }

  // ---------------------------------------------------------------------------
  // Associativity
  // ---------------------------------------------------------------------------

  /** Two sums whose terms agree modulo p agree modulo p. */
  lemma SumCongruent(n: nat, f: int -> int, g: int -> int, p: int)
    requires p > 0
    requires forall k :: 0 <= k < n ==> f(k) % p == g(k) % p
    ensures Sum(n, f) % p == Sum(n, g) % p
  {
    var fr := k => f(k) % p;
    SumMod(n, f, fr, p);
    SumMod(n, g, fr, p);
  }

  /** The triple products a(i, s) * b(s, t) * c(t, j) indexed by t and then s. */
  function Triple(A: Mat, B: Mat, C: Mat, i: int, j: int): int -> int -> int {
    t => s => At(A, i, s) * At(B, s, t) * At(C, t, j)
  }

  lemma MulAssoc(a: int, b: int, c: int)
    ensures a * b * c == a * (b * c)
  {
  }

  /** Inner sum t of the triple products factors out C's entry. */
  lemma RowOfTriples(A: Mat, B: Mat, C: Mat, i: int, j: int, t: int)
    ensures Sum(|A|, Triple(A, B, C, i, j)(t)) == At(C, t, j) * Sum(|A|, Terms(A, B, i, t))
  {
    var c := At(C, t, j);
    var F := Triple(A, B, C, i, j)(t);
    forall k | 0 <= k < |A|
      ensures F(k) == c * Terms(A, B, i, t)(k)
    {
      var a, b := At(A, i, k), At(B, k, t);
      assert F(k) == a * b * c;
      assert Terms(A, B, i, t)(k) == a * b;
    }
    SumScale(|A|, c, Terms(A, B, i, t), F);
  }

  /** Column sum s of the triple products factors out A's entry. */
  lemma ColumnOfTriples(A: Mat, B: Mat, C: Mat, i: int, j: int, s: int)
    ensures Sum(|A|, Column(Triple(A, B, C, i, j), s)) == At(A, i, s) * Sum(|A|, Terms(B, C, s, j))
  {
    var a := At(A, i, s);
    var G := Column(Triple(A, B, C, i, j), s);
    forall k | 0 <= k < |A|
      ensures G(k) == a * Terms(B, C, s, j)(k)
    {
      var b, c := At(B, s, k), At(C, k, j);
      assert G(k) == a * b * c;
      assert Terms(B, C, s, j)(k) == b * c;
      MulAssoc(a, b, c);
    }
    SumScale(|A|, a, Terms(B, C, s, j), G);
  }

  /** Term t of entry (i, j) of (A * B) * C is congruent to the t-th inner sum
      of triple products. */
  lemma LeftTerm(A: Mat, B: Mat, C: Mat, i: int, j: int, t: int, p: nat)
    requires p >= 1 && |A| == |B| == |C|
    requires 0 <= i < |A| && 0 <= t < |A|
    ensures Terms(MatMul(A, B, p), C, i, j)(t) % p == RowSums(Triple(A, B, C, i, j), |A|)(t) % p
  {
    var x := Sum(|A|, Terms(A, B, i, t));
    var c := At(C, t, j);
    RowOfTriples(A, B, C, i, j, t);
    assert MatMul(A, B, p)[i][t] == x % p;
    assert Terms(MatMul(A, B, p), C, i, j)(t) == (x % p) * c;
    ModMulLeft(x, c, p);
    assert c * x == x * c;
  }

  /** Term s of entry (i, j) of A * (B * C) is congruent to the s-th column sum
      of triple products. */
  lemma RightTerm(A: Mat, B: Mat, C: Mat, i: int, j: int, s: int, p: nat)
    requires p >= 1 && |A| == |B| == |C|
    requires 0 <= s < |A| && 0 <= j < |A|
    ensures Terms(A, MatMul(B, C, p), i, j)(s) % p == ColSums(Triple(A, B, C, i, j), |A|)(s) % p
  {
    var y := Sum(|A|, Terms(B, C, s, j));
    var a := At(A, i, s);
    ColumnOfTriples(A, B, C, i, j, s);
    assert MatMul(B, C, p)[s][j] == y % p;
    assert Terms(A, MatMul(B, C, p), i, j)(s) == a * (y % p);
    ModMulLeft(y, a, p);
    assert y * a == a * y;
    assert (y % p) * a == a * (y % p);
  }

  /** Matrix multiplication modulo p is associative. */
  lemma MatMulAssoc(A: Mat, B: Mat, C: Mat, p: nat)
    requires p >= 1 && |A| == |B| == |C|
    ensures MatMul(MatMul(A, B, p), C, p) == MatMul(A, MatMul(B, C, p), p)
  {
    var n := |A|;
    var L := MatMul(MatMul(A, B, p), C, p);
    var R := MatMul(A, MatMul(B, C, p), p);
    forall i | 0 <= i < n
      ensures L[i] == R[i]
    {
      forall j | 0 <= j < n
        ensures L[i][j] == R[i][j]
      {
        EntryAssoc(A, B, C, i, j, p);
      }
    }
  }

  lemma EntryAssoc(A: Mat, B: Mat, C: Mat, i: int, j: int, p: nat)
    requires p >= 1 && |A| == |B| == |C|
    requires 0 <= i < |A| && 0 <= j < |A|
    ensures MatMul(MatMul(A, B, p), C, p)[i][j] == MatMul(A, MatMul(B, C, p), p)[i][j]
  {
    var n := |A|;
    var F := Triple(A, B, C, i, j);
    forall t | 0 <= t < n
      ensures Terms(MatMul(A, B, p), C, i, j)(t) % p == RowSums(F, n)(t) % p
    {
      LeftTerm(A, B, C, i, j, t, p);
    }
    SumCongruent(n, Terms(MatMul(A, B, p), C, i, j), RowSums(F, n), p);
    forall s | 0 <= s < n
      ensures Terms(A, MatMul(B, C, p), i, j)(s) % p == ColSums(F, n)(s) % p
    {
      RightTerm(A, B, C, i, j, s, p);
    }
    SumCongruent(n, Terms(A, MatMul(B, C, p), i, j), ColSums(F, n), p);
    SumSwap(n, n, F);
  }

  // ---------------------------------------------------------------------------
  // Powers and chain products
  // ---------------------------------------------------------------------------

  /** A^e modulo p for e >= 1, multiplying on the right. */
  function MatPow(A: Mat, e: nat, p: nat): (P: Mat)
    requires p >= 1 && e >= 1
    ensures |P| == |A|
    ensures forall n :: IsMat(A, n, p) ==> IsMat(P, n, p)
    decreases e
  {
    if e == 1 then A else MatMul(MatPow(A, e - 1, p), A, p)
  }

  /** A^a * A^b = A^(a + b). */
  lemma {:induction false} MatPowAdd(A: Mat, a: nat, b: nat, p: nat)
    requires p >= 1 && a >= 1 && b >= 1
    ensures MatMul(MatPow(A, a, p), MatPow(A, b, p), p) == MatPow(A, a + b, p)
    decreases b
  {
    if b > 1 {
      MatPowAdd(A, a, b - 1, p);
      MatMulAssoc(MatPow(A, a, p), MatPow(A, b - 1, p), A, p);
    }
  }

  /** Squaring A^k gives A^(2k). */
  lemma MatPowSquare(A: Mat, k: nat, p: nat)
    requires p >= 1 && k >= 1
    ensures MatMul(MatPow(A, k, p), MatPow(A, k, p), p) == MatPow(A, 2 * k, p)
  {
    MatPowAdd(A, k, k, p);
  }

  /** The ordered product Ms[0] * Ms[1] * ... * Ms[|Ms| - 1] modulo p. */
  function ChainProduct(Ms: seq<Mat>, p: nat): (P: Mat)
    requires p >= 1 && |Ms| >= 1
    ensures |P| == |Ms[0]|
    ensures forall n :: AllMats(Ms, n, p) ==> IsMat(P, n, p)
    decreases |Ms|
  {
    if |Ms| == 1 then Ms[0] else MatMul(ChainProduct(Ms[..|Ms| - 1], p), Ms[|Ms| - 1], p)
  }

  /** The chain product of a list is the product of the chain products of its
      two halves, wherever it is split. */
  lemma {:induction false} ChainSplit(Ms: seq<Mat>, k: nat, n: nat, p: nat)
    requires p >= 1 && 1 <= k < |Ms| && AllMats(Ms, n, p)
    ensures ChainProduct(Ms, p) == MatMul(ChainProduct(Ms[..k], p), ChainProduct(Ms[k..], p), p)
    decreases |Ms|
  {
    var m := |Ms|;
    if k == m - 1 {
      assert Ms[k..] == [Ms[m - 1]];
      assert Ms[..m - 1] == Ms[..k];
    } else {
      var init := Ms[..m - 1];
      assert init[..k] == Ms[..k];
      assert init[k..] == Ms[k..m - 1];
      ChainSplit(init, k, n, p);
      var tail := Ms[k..];
      assert tail[..|tail| - 1] == Ms[k..m - 1];
      assert tail[|tail| - 1] == Ms[m - 1];
      MatMulAssoc(ChainProduct(Ms[..k], p), ChainProduct(Ms[k..m - 1], p), Ms[m - 1], p);
    }
  }

  /** The chain product of two matrices is their product. */
  lemma ChainOfTwo(A: Mat, B: Mat, p: nat)
    requires p >= 1
    ensures ChainProduct([A, B], p) == MatMul(A, B, p)
  {
    assert [A, B][..1] == [A];
  }

  /** A chain of powers of one matrix is the power with the summed exponent. */
  lemma {:induction false} ChainOfPowers(A: Mat, es: seq<nat>, p: nat)
    requires p >= 1 && |es| >= 1 && AllPositive(es)
    ensures ChainProduct(seq(|es|, k requires 0 <= k < |es| => MatPow(A, es[k], p)), p)
         == MatPow(A, SumNat(es), p)
    decreases |es|
  {
    var Ms := seq(|es|, k requires 0 <= k < |es| => MatPow(A, es[k], p));
    var m := |es|;
    if m > 1 {
      var init := es[..m - 1];
      ChainOfPowers(A, init, p);
      assert Ms[..m - 1] == seq(|init|, k requires 0 <= k < |init| => MatPow(A, init[k], p));
      SumNatPositive(init);
      MatPowAdd(A, SumNat(init), es[m - 1], p);
    }
  }

  /** Sum of a list of naturals, added from the right. */
  function SumNat(es: seq<nat>): nat {
    if |es| == 0 then 0 else SumNat(es[..|es| - 1]) + es[|es| - 1]
  }

  /** The sum of a list is the sum of its two parts, wherever it is cut. */
  lemma {:induction false} SumNatSplit(es: seq<nat>, k: nat)
    requires k <= |es|
    ensures SumNat(es) == SumNat(es[..k]) + SumNat(es[k..])
    decreases |es|
  {
    if k < |es| {
      var init := es[..|es| - 1];
      SumNatSplit(init, k);
      assert init[..k] == es[..k];
      var tail := es[k..];
      assert tail[..|tail| - 1] == init[k..];
    } else {
      assert es[..k] == es;
    }
  }

  /** Adding an element at the front adds it to the sum. */
  lemma SumNatCons(e: nat, es: seq<nat>)
    ensures SumNat([e] + es) == e + SumNat(es)
  {
    SumNatSplit([e] + es, 1);
    assert ([e] + es)[..1] == [e];
    assert ([e] + es)[1..] == es;
  }

  /** Every entry of the list is positive. */
  predicate AllPositive(es: seq<nat>) {
    forall k :: 0 <= k < |es| ==> es[k] >= 1
  }

  lemma {:induction false} SumNatPositive(es: seq<nat>)
    requires |es| >= 1 && AllPositive(es)
    ensures SumNat(es) >= 1
  {
    if |es| > 1 {
      SumNatPositive(es[..|es| - 1]);
    }
  }
}
