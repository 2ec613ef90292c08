/** Packed matrix routines over d x d matrices laid out row-major in d * d
    slots and replicated across all S slots (repFillSlots), so that rotations
    act cyclically modulo the period: the Halevi-Shoup diagonal
    matrix-vector product and the Jiang-Kim-Lauter-Song matrix product
    (CCS 2018) with its precomputed masks. */
module MatrixOps {
  import opened ModArith
  import opened Slots
  import opened Matrices

  // ---------------------------------------------------------------------------
  // Replicated vectors and their period-level operations
  // ---------------------------------------------------------------------------

  /** The period n divides the slot count, so repetitions tile all S slots. */
  predicate Tiles(cc: Context, n: nat) {
    n >= 1 && cc.S % n == 0
  }

  /** repFillSlots followed by packing: v repeated across all S slots. */
  function RepFill(cc: Context, v: seq<int>): (c: Ct)
    requires ValidContext(cc) && |v| >= 1
    ensures IsCt(cc, c)
  {
    seq(cc.S, l => v[l % |v|] % cc.p)
  }

  /** Cyclic rotation within one period: out[l] = v[(l + k) mod |v|]. */
  function VRot(v: seq<int>, k: int): (w: seq<int>)
    requires |v| >= 1
    ensures |w| == |v|
  {
    seq(|v|, l => v[(l + k) % |v|])
  }

  /** Slot-wise product modulo p within one period. */
  function VMul(a: seq<int>, b: seq<int>, p: nat): (w: seq<int>)
    requires p >= 1
    ensures |w| == |a|
  {
    seq(|a|, l requires 0 <= l < |a| => (a[l] * Slot(b, l)) % p)
  }

  /** Slot-wise sum modulo p within one period. */
  function VAdd(a: seq<int>, b: seq<int>, p: nat): (w: seq<int>)
    requires p >= 1
    ensures |w| == |a|
  {
    seq(|a|, l requires 0 <= l < |a| => (a[l] + Slot(b, l)) % p)
  }

  /** Slot-wise sum modulo p of a list of periods of length n. */
  function VAddMany(vs: seq<seq<int>>, n: nat, p: nat): (w: seq<int>)
    requires p >= 1
    ensures |w| == n
  {
    seq(n, l => Sum(|vs|, i => SlotOf(vs, i, l)) % p)
  }

  /** Every entry of v is a residue modulo p. */
  predicate Residues(v: seq<int>, p: nat) {
    forall l :: 0 <= l < |v| ==> 0 <= v[l] < p
  }

  lemma ModOfPeriod(x: int, S: nat, n: nat)
    requires n >= 1 && S >= 1 && S % n == 0
    ensures (x % S) % n == x % n
  {
    var q, m := x / S, S / n;
    assert S == m * n;
    assert x == (q * m) * n + x % S by {
      assert x == q * S + x % S;
      assert q * S == (q * m) * n;
    }
    ModAddMultiple(q * m, x % S, n);
  }

  lemma TilesFit(cc: Context, n: nat)
    requires ValidContext(cc) && Tiles(cc, n)
    ensures n <= cc.S
  {
    if n > cc.S {
      ModOfSmall(cc.S, n);
    }
  }

  /** Rotating a replicated vector rotates each period cyclically. */
  lemma RepFillRotate(cc: Context, v: seq<int>, k: int)
    requires ValidContext(cc) && Tiles(cc, |v|)
    ensures Rotate(cc, RepFill(cc, v), k) == RepFill(cc, VRot(v, k))
  {
    var n := |v|;
    var lhs, rhs := Rotate(cc, RepFill(cc, v), k), RepFill(cc, VRot(v, k));
    forall l | 0 <= l < cc.S
      ensures lhs[l] == rhs[l]
    {
      var x := (l + k) % cc.S;
      assert 0 <= x < cc.S;
      assert lhs[l] == Slot(RepFill(cc, v), x);
      assert |RepFill(cc, v)| == cc.S;
      assert Slot(RepFill(cc, v), x) == RepFill(cc, v)[x];
      assert lhs[l] == RepFill(cc, v)[x];
      assert rhs[l] == v[(l % n + k) % n] % cc.p;
      ModOfPeriod(l + k, cc.S, n);
      ModAddLeft(l, k, n);
    }
  }

  /** Multiplying replicated vectors multiplies their periods. */
  lemma RepFillMult(cc: Context, a: seq<int>, b: seq<int>)
    requires ValidContext(cc) && |a| == |b| >= 1
    ensures Mult(cc, RepFill(cc, a), RepFill(cc, b)) == RepFill(cc, VMul(a, b, cc.p))
  {
    var n := |a|;
    var lhs, rhs := Mult(cc, RepFill(cc, a), RepFill(cc, b)), RepFill(cc, VMul(a, b, cc.p));
    forall l | 0 <= l < cc.S
      ensures lhs[l] == rhs[l]
    {
      var x := l % n;
      ModMul(a[x], b[x], cc.p);
      ModMod(a[x] * b[x], cc.p);
    }
  }

  /** Adding replicated vectors adds their periods. */
  lemma RepFillAdd(cc: Context, a: seq<int>, b: seq<int>)
    requires ValidContext(cc) && |a| == |b| >= 1
    ensures Add(cc, RepFill(cc, a), RepFill(cc, b)) == RepFill(cc, VAdd(a, b, cc.p))
  {
    var n := |a|;
    var lhs, rhs := Add(cc, RepFill(cc, a), RepFill(cc, b)), RepFill(cc, VAdd(a, b, cc.p));
    forall l | 0 <= l < cc.S
      ensures lhs[l] == rhs[l]
    {
      var x := l % n;
      ModAdd(a[x], b[x], cc.p);
      ModMod(a[x] + b[x], cc.p);
    }
  }

  /** Summing a list of replicated vectors sums their periods. */
  lemma RepFillAddMany(cc: Context, cs: seq<Ct>, vs: seq<seq<int>>, n: nat)
    requires ValidContext(cc) && n >= 1 && |cs| == |vs|
    requires forall i :: 0 <= i < |vs| ==> |vs[i]| == n && cs[i] == RepFill(cc, vs[i])
    ensures AddMany(cc, cs) == RepFill(cc, VAddMany(vs, n, cc.p))
  {
    var lhs, rhs := AddMany(cc, cs), RepFill(cc, VAddMany(vs, n, cc.p));
    forall l | 0 <= l < cc.S
      ensures lhs[l] == rhs[l]
    {
      var x := l % n;
      var f, g := i => SlotOf(vs, i, x), i => SlotOf(cs, i, l);
      SumMod(|vs|, f, g, cc.p);
      ModMod(Sum(|vs|, f), cc.p);
    }
  }

  // ---------------------------------------------------------------------------
  // Index arithmetic on the d x d grid
  // ---------------------------------------------------------------------------

  lemma MulMono(a: int, b: int, d: int)
    requires a <= b && d >= 0
    ensures a * d <= b * d
  {
    assert b * d - a * d == (b - a) * d;
  }

  /** Slot i * d + j lies in the grid and splits back into (i, j). */
  lemma Cell(d: nat, i: int, j: int)
    requires 0 <= i < d && 0 <= j < d
    ensures 0 <= i * d + j < d * d
    ensures (i * d + j) / d == i && (i * d + j) % d == j
  {
    MulMono(i, d - 1, d);
    MulMono(0, i, d);
    DivModUnique(i * d + j, d, i, j);
  }

  /** Every slot of the grid is some i * d + j. */
  lemma Split(d: nat, l: int)
    requires 0 <= l < d * d
    ensures 0 <= l / d < d && 0 <= l % d < d && l == (l / d) * d + l % d
  {
    if l / d >= d {
      MulMono(d, l / d, d);
    }
  }

  /** Beyond block 0 the offset m * d + j leaves [0, d). */
  lemma BlockOffset(d: nat, m: int, j: int)
    requires 0 <= j < d
    ensures m < 0 ==> m * d + j < 0
    ensures m > 0 ==> m * d + j >= d
  {
    if m < 0 {
      MulMono(m, -1, d);
    } else if m > 0 {
      MulMono(1, m, d);
    }
  }

  /** Moving down k rows of the grid, cyclically. */
  lemma RowShiftIndex(d: nat, i: int, j: int, k: int)
    requires 0 <= i < d && 0 <= j < d && 0 <= k < d
    ensures 0 <= (i + k) % d < d
    ensures (i * d + j + d * k) % (d * d) == ((i + k) % d) * d + j
  {
    WrapSum(i, k, d);
    var r := (i + k) % d;
    Cell(d, r, j);
    if i + k < d {
      assert i * d + j + d * k == r * d + j;
      DivModUnique(i * d + j + d * k, d * d, 0, r * d + j);
    } else {
      assert r * d == i * d + d * k - d * d;
      DivModUnique(i * d + j + d * k, d * d, 1, r * d + j);
    }
  }

  /** Moving right k columns within row i, cyclically. */
  lemma ColShiftIndex(d: nat, i: int, j: int, k: int)
    requires 0 <= i < d && 0 <= j < d && 0 <= k < d
    ensures 0 <= (j + k) % d < d
    ensures j + k < d ==> (i * d + j + k) % (d * d) == i * d + (j + k) % d
    ensures j + k >= d ==> (i * d + j + k - d) % (d * d) == i * d + (j + k) % d
  {
    if j + k < d {
      ModOfSmall(j + k, d);
      Cell(d, i, j + k);
      ModOfSmall(i * d + j + k, d * d);
    } else {
      DivModUnique(j + k, d, 1, j + k - d);
      Cell(d, i, j + k - d);
      ModOfSmall(i * d + (j + k - d), d * d);
    }
  }

  /** A matrix laid out row-major in d * d slots. */
  function Flatten(M: Mat, d: nat): (v: seq<int>)
    requires d >= 1
    ensures |v| == d * d
  {
    seq(d * d, l => At(M, l / d, l % d))
  }

  // ---------------------------------------------------------------------------
  // Halevi-Shoup diagonal matrix-vector product
  // ---------------------------------------------------------------------------

  /** evalDiagMatrixVecMult: the sum over l < d of diagonal l times the
      vector rotated by l. */
  function DiagMatrixVecMult(cc: Context, encDiags: seq<Ct>, encVec: Ct): (c: Ct)
    requires ValidContext(cc)
    ensures IsCt(cc, c)
  {
    AddMany(cc, seq(|encDiags|, l requires 0 <= l < |encDiags| => Mult(cc, encDiags[l], Rotate(cc, encVec, l))))
  }

  /** Entry i of the diagonal product: D[l][i] * v[(i + l) mod d] summed over l. */
  function DiagProduct(D: seq<seq<int>>, v: seq<int>, p: nat): (w: seq<int>)
    requires |v| >= 1 && p >= 1
    ensures |w| == |v|
  {
    seq(|v|, i => Sum(|D|, l => At(D, l, i) * v[(i + l) % |v|]) % p)
  }

  /** The generalised diagonals of M: diagonal l holds M[i][(i + l) mod d]. */
  function Diagonals(M: Mat): (D: seq<seq<int>>)
    ensures |D| == |M|
  {
    seq(|M|, l requires 0 <= l < |M| => seq(|M|, i requires 0 <= i < |M| => At(M, i, (i + l) % |M|)))
  }

  /** On replicated inputs the routine computes the diagonal product in every
      period. */
  lemma DiagMatrixVecMultSlots(cc: Context, encDiags: seq<Ct>, encVec: Ct, D: seq<seq<int>>, v: seq<int>)
    requires ValidContext(cc) && Tiles(cc, |v|) && |D| == |encDiags| == |v|
    requires forall l :: 0 <= l < |D| ==> |D[l]| == |v| && encDiags[l] == RepFill(cc, D[l])
    requires encVec == RepFill(cc, v)
    ensures DiagMatrixVecMult(cc, encDiags, encVec) == RepFill(cc, DiagProduct(D, v, cc.p))
  {
    var d, p := |v|, cc.p;
    var cs := seq(d, l requires 0 <= l < d => Mult(cc, encDiags[l], Rotate(cc, encVec, l)));
    var vs := seq(d, l requires 0 <= l < d => VMul(D[l], VRot(v, l), p));
    forall l | 0 <= l < d
      ensures cs[l] == RepFill(cc, vs[l])
    {
      RepFillRotate(cc, v, l);
      RepFillMult(cc, D[l], VRot(v, l));
    }
    RepFillAddMany(cc, cs, vs, d);
    var w := VAddMany(vs, d, p);
    forall i | 0 <= i < d
      ensures w[i] == DiagProduct(D, v, p)[i]
    {
      SumMod(d, l => At(D, l, i) * v[(i + l) % d], l => SlotOf(vs, l, i), p);
    }
  }

  /** Halevi-Shoup: with the generalised diagonals of M the diagonal product
      is the matrix-vector product M v. */
  lemma DiagonalMethod(M: Mat, v: seq<int>, p: nat)
    requires |v| == |M| >= 1 && p >= 1
    ensures DiagProduct(Diagonals(M), v, p) == MatVec(M, v, p)
  {
    var d, D := |M|, Diagonals(M);
    forall i | 0 <= i < d
      ensures DiagProduct(D, v, p)[i] == MatVec(M, v, p)[i]
    {
      var f := t => At(M, i, t) * VAt(v, t);
      var g := l => At(D, l, i) * v[(i + l) % d];
      forall l | 0 <= l < d
        ensures g(l) == f((i + l) % d)
      {
      }
      SumRotate(d, i, f, g);
    }
  }

  /** The encrypted diagonal method computes M v in every period. */
  lemma DiagMatrixVecMultCorrect(cc: Context, M: Mat, v: seq<int>)
    requires ValidContext(cc) && Tiles(cc, |M|) && |v| == |M|
    ensures DiagMatrixVecMult(cc, seq(|M|, l requires 0 <= l < |M| => RepFill(cc, Diagonals(M)[l])), RepFill(cc, v))
         == RepFill(cc, MatVec(M, v, cc.p))
  {
    DiagMatrixVecMultSlots(cc, seq(|M|, l requires 0 <= l < |M| => RepFill(cc, Diagonals(M)[l])), RepFill(cc, v), Diagonals(M), v);
    DiagonalMethod(M, v, cc.p);
  }

  // ---------------------------------------------------------------------------
  // The Jiang-Kim-Lauter-Song masks
  // ---------------------------------------------------------------------------

  /** Slot l belongs to mask u_sigma[k]. */
  predicate SigmaSelects(d: int, k: int, l: int) {
    if k < 0 then -k <= l - (d + k) * d < d else 0 <= l - d * k < d - k
  }

  /** The mask u_sigma[k] over one period of d * d slots. */
  function SigmaMask(d: nat, k: int): (u: seq<int>)
    ensures |u| == d * d
  {
    seq(d * d, l => if SigmaSelects(d, k, l) then 1 else 0)
  }

  /** The mask u_tau[d * k]: the indicator of column k. */
  function TauMask(d: nat, k: int): (u: seq<int>)
    requires d >= 1
    ensures |u| == d * d
  {
    seq(d * d, l => if l % d == k then 1 else 0)
  }

  /** The mask v1[k]: columns left of d - k. */
  function LeftMask(d: nat, k: int): (u: seq<int>)
    requires d >= 1
    ensures |u| == d * d
  {
    seq(d * d, l => if l % d < d - k then 1 else 0)
  }

  /** The mask v2[k - d]: columns from d - k on. */
  function RightMask(d: nat, k: int): (u: seq<int>)
    requires d >= 1
    ensures |u| == d * d
  {
    seq(d * d, l => if d - k <= l % d < d then 1 else 0)
  }

  /** The rotation that step 1-1 uses for the entry in row i, column j. */
  function SigmaShift(d: int, i: int, j: int): int {
    if j < d - i then i else i - d
  }

  /** Exactly one u_sigma mask selects each slot i * d + j: the one with
      k = i when j < d - i and k = i - d otherwise. */
  lemma SigmaSelectsCell(d: nat, i: int, j: int, k: int)
    requires 0 <= i < d && 0 <= j < d && -(d as int) <= k <= d
    ensures SigmaSelects(d, k, i * d + j) <==> k == SigmaShift(d, i, j)
  {
    if k < 0 {
      assert i * d + j - (d + k) * d == (i - d - k) * d + j;
      BlockOffset(d, i - d - k, j);
    } else {
      assert i * d + j - d * k == (i - k) * d + j;
      BlockOffset(d, i - k, j);
    }
  }

  /** Slotwise form of the u_sigma characterisation; the masks for k = d and
      k = -d select nothing. */
  lemma SigmaMaskSlots(d: nat, k: int, l: int)
    requires -(d as int) <= k <= d && 0 <= l < d * d
    ensures -(d as int) < SigmaShift(d, l / d, l % d) < d
    ensures SigmaMask(d, k)[l] == if k == SigmaShift(d, l / d, l % d) then 1 else 0
    ensures k == d || k == -(d as int) ==> SigmaMask(d, k)[l] == 0
  {
    Split(d, l);
    SigmaSelectsCell(d, l / d, l % d, k);
  }

  /** u_tau[d * k] is 1 exactly on column k. */
  lemma TauMaskColumn(d: nat, k: int, i: int, j: int)
    requires d >= 1 && 0 <= i < d && 0 <= j < d
    ensures 0 <= i * d + j < d * d
    ensures TauMask(d, k)[i * d + j] == if j == k then 1 else 0
  {
    Cell(d, i, j);
  }

  /** v1[k] and v2[k - d] split every slot between them; v1[k] covers the
      first d - k columns of every row. */
  lemma StepMasksPartition(d: nat, k: int, i: int, j: int)
    requires 1 <= k < d && 0 <= i < d && 0 <= j < d
    ensures 0 <= i * d + j < d * d
    ensures LeftMask(d, k)[i * d + j] + RightMask(d, k)[i * d + j] == 1
    ensures LeftMask(d, k)[i * d + j] == if j < d - k then 1 else 0
  {
    Cell(d, i, j);
  }

  // ---------------------------------------------------------------------------
  // The product within one period
  // ---------------------------------------------------------------------------

  /** Step 1-1: rotate A by every k in [-d, d], mask with u_sigma[k], add. */
  function SigmaStep(a: seq<int>, d: nat, p: nat): (a0: seq<int>)
    requires d >= 1 && |a| == d * d && p >= 1
    ensures |a0| == d * d
  {
    VAddMany(SigmaParts(a, d, p), d * d, p)
  }

  /** Step 1-1's summands within one period. */
  function SigmaParts(a: seq<int>, d: nat, p: nat): (ts: seq<seq<int>>)
    requires d >= 1 && |a| == d * d && p >= 1
    ensures |ts| == 2 * d + 1
  {
    seq(2 * d + 1, t => VMul(VRot(a, t - d), SigmaMask(d, t - d), p))
  }

  /** Step 1-2: rotate B by d * k for k < d, mask with u_tau[d * k], add. */
  function TauStep(b: seq<int>, d: nat, p: nat): (b0: seq<int>)
    requires d >= 1 && |b| == d * d && p >= 1
    ensures |b0| == d * d
  {
    VAddMany(TauParts(b, d, p), d * d, p)
  }

  /** Step 1-2's summands within one period. */
  function TauParts(b: seq<int>, d: nat, p: nat): (ts: seq<seq<int>>)
    requires d >= 1 && |b| == d * d && p >= 1
    ensures |ts| == d
  {
    seq(d, k => VMul(VRot(b, d * k), TauMask(d, k), p))
  }

  /** Step 2, A side: v1[k] * Rot(A_0, k) + v2[k - d] * Rot(A_0, k - d). */
  function ShiftA(a0: seq<int>, d: nat, k: int, p: nat): (ak: seq<int>)
    requires d >= 1 && |a0| == d * d && p >= 1
    ensures |ak| == d * d
  {
    VAdd(VMul(LeftMask(d, k), VRot(a0, k), p), VMul(RightMask(d, k), VRot(a0, k - d), p), p)
  }

  /** Step 2, B side: Rot(B_0, d * k). */
  function ShiftB(b0: seq<int>, d: nat, k: int): (bk: seq<int>)
    requires d >= 1 && |b0| == d * d
    ensures |bk| == d * d
  {
    VRot(b0, d * k)
  }

  /** Step 3's summands: A_0 * B_0 and A[k] * B[k] for 1 <= k < d. */
  function ProductTerms(a0: seq<int>, b0: seq<int>, d: nat, p: nat): (ts: seq<seq<int>>)
    requires d >= 1 && |a0| == d * d && |b0| == d * d && p >= 1
    ensures |ts| == d
  {
    [VMul(a0, b0, p)] + seq(d - 1, t => VMul(ShiftA(a0, d, t + 1, p), ShiftB(b0, d, t + 1), p))
  }

  /** The whole product within one period. */
  function PackedProduct(a: seq<int>, b: seq<int>, d: nat, p: nat): (ab: seq<int>)
    requires d >= 1 && |a| == d * d && |b| == d * d && p >= 1
    ensures |ab| == d * d
  {
    VAddMany(ProductTerms(SigmaStep(a, d, p), TauStep(b, d, p), d, p), d * d, p)
  }

  /** A period sum whose summands vanish at slot l except summand t0. */
  lemma VAddManySingle(vs: seq<seq<int>>, n: nat, p: nat, l: int, t0: int)
    requires p >= 1 && 0 <= l < n && 0 <= t0 < |vs|
    requires forall t :: 0 <= t < |vs| && t != t0 ==> SlotOf(vs, t, l) == 0
    ensures VAddMany(vs, n, p)[l] == SlotOf(vs, t0, l) % p
  {
    SumSingle(|vs|, t => SlotOf(vs, t, l), t0);
  }

  /** Step 1-1 at a slot that exactly the mask u_sigma[k0] selects. */
  lemma SigmaStepAt(a: seq<int>, d: nat, p: nat, l: int, k0: int)
    requires d >= 1 && |a| == d * d && p >= 1 && Residues(a, p) && 0 <= l < d * d
    requires -(d as int) <= k0 <= d
    requires forall k :: -(d as int) <= k <= d ==> SigmaMask(d, k)[l] == if k == k0 then 1 else 0
    ensures SigmaStep(a, d, p)[l] == a[(l + k0) % (d * d)]
  {
    var terms := SigmaParts(a, d, p);
    SigmaPartsAt(a, d, p, l, k0);
    VAddManySingle(terms, d * d, p, l, k0 + d);
    ModOfSmall(a[(l + k0) % (d * d)], p);
  }

  lemma SigmaPartsAt(a: seq<int>, d: nat, p: nat, l: int, k0: int)
    requires d >= 1 && |a| == d * d && p >= 1 && Residues(a, p) && 0 <= l < d * d
    requires -(d as int) <= k0 <= d
    requires forall k :: -(d as int) <= k <= d ==> SigmaMask(d, k)[l] == if k == k0 then 1 else 0
    ensures forall t :: 0 <= t < 2 * d + 1 && t != k0 + d ==> SlotOf(SigmaParts(a, d, p), t, l) == 0
    ensures SlotOf(SigmaParts(a, d, p), k0 + d, l) == a[(l + k0) % (d * d)]
  {
    var terms := SigmaParts(a, d, p);
    forall t | 0 <= t < 2 * d + 1 && t != k0 + d
      ensures SlotOf(terms, t, l) == 0
    {
      SigmaPartMasked(a, d, p, l, t - d);
    }
    SigmaPartHit(a, d, p, l, k0);
  }

  lemma SigmaPartMasked(a: seq<int>, d: nat, p: nat, l: int, k: int)
    requires d >= 1 && |a| == d * d && p >= 1 && 0 <= l < d * d
    requires -(d as int) <= k <= d && SigmaMask(d, k)[l] == 0
    ensures SlotOf(SigmaParts(a, d, p), k + d, l) == 0
  {
    assert SigmaParts(a, d, p)[k + d] == VMul(VRot(a, k), SigmaMask(d, k), p);
    assert VRot(a, k)[l] * SigmaMask(d, k)[l] == 0;
    ModOfSmall(0, p);
  }

  lemma SigmaPartHit(a: seq<int>, d: nat, p: nat, l: int, k: int)
    requires d >= 1 && |a| == d * d && p >= 1 && Residues(a, p) && 0 <= l < d * d
    requires -(d as int) <= k <= d && SigmaMask(d, k)[l] == 1
    ensures SlotOf(SigmaParts(a, d, p), k + d, l) == a[(l + k) % (d * d)]
  {
    var x := a[(l + k) % (d * d)];
    assert SigmaParts(a, d, p)[k + d] == VMul(VRot(a, k), SigmaMask(d, k), p);
    assert VRot(a, k)[l] == x;
    ModOfSmall(x, p);
  }

  /** After step 1-1, row i is rotated left by i: A_0[i*d + j] = A[i*d + (i + j) mod d]. */
  lemma SigmaStepCell(a: seq<int>, d: nat, p: nat, i: int, j: int)
    requires d >= 1 && |a| == d * d && p >= 1 && Residues(a, p)
    requires 0 <= i < d && 0 <= j < d
    ensures 0 <= i * d + j < d * d
    ensures 0 <= i * d + (i + j) % d < d * d
    ensures SigmaStep(a, d, p)[i * d + j] == a[i * d + (i + j) % d]
  {
    Cell(d, i, j);
    SigmaIndex(d, i, j);
    var l := i * d + j;
    forall k | -(d as int) <= k <= d
      ensures SigmaMask(d, k)[l] == if k == SigmaShift(d, i, j) then 1 else 0
    {
      SigmaSelectsCell(d, i, j, k);
    }
    SigmaStepAt(a, d, p, l, SigmaShift(d, i, j));
  }

  lemma SigmaIndex(d: nat, i: int, j: int)
    requires 0 <= i < d && 0 <= j < d
    ensures 0 <= i * d + (i + j) % d < d * d
    ensures (i * d + j + SigmaShift(d, i, j)) % (d * d) == i * d + (i + j) % d
  {
    assert i * d + j + SigmaShift(d, i, j) == if j < d - i then i * d + j + i else i * d + j + i - d;
    ColShiftIndex(d, i, j, i);
    Cell(d, i, (i + j) % d);
  }

  /** Step 1-2 at a slot in column j0. */
  lemma TauStepAt(b: seq<int>, d: nat, p: nat, l: int, j0: int)
    requires d >= 1 && |b| == d * d && p >= 1 && Residues(b, p) && 0 <= l < d * d
    requires 0 <= j0 < d && l % d == j0
    ensures TauStep(b, d, p)[l] == b[(l + d * j0) % (d * d)]
  {
    TauPartsAt(b, d, p, l, j0);
    VAddManySingle(TauParts(b, d, p), d * d, p, l, j0);
    ModOfSmall(b[(l + d * j0) % (d * d)], p);
  }

  lemma TauPartsAt(b: seq<int>, d: nat, p: nat, l: int, j0: int)
    requires d >= 1 && |b| == d * d && p >= 1 && Residues(b, p) && 0 <= l < d * d
    requires 0 <= j0 < d && l % d == j0
    ensures forall k :: 0 <= k < d && k != j0 ==> SlotOf(TauParts(b, d, p), k, l) == 0
    ensures SlotOf(TauParts(b, d, p), j0, l) == b[(l + d * j0) % (d * d)]
  {
    var terms, x := TauParts(b, d, p), b[(l + d * j0) % (d * d)];
    forall k | 0 <= k < d && k != j0
      ensures SlotOf(terms, k, l) == 0
    {
      assert TauMask(d, k)[l] == 0;
      ModOfSmall(0, p);
    }
    assert terms[j0] == VMul(VRot(b, d * j0), TauMask(d, j0), p);
    assert VRot(b, d * j0)[l] == x;
    ModOfSmall(x, p);
  }

  /** After step 1-2, column j is rotated up by j: B_0[i*d + j] = B[((i + j) mod d)*d + j]. */
  lemma TauStepCell(b: seq<int>, d: nat, p: nat, i: int, j: int)
    requires d >= 1 && |b| == d * d && p >= 1 && Residues(b, p)
    requires 0 <= i < d && 0 <= j < d
    ensures 0 <= i * d + j < d * d
    ensures 0 <= ((i + j) % d) * d + j < d * d
    ensures TauStep(b, d, p)[i * d + j] == b[((i + j) % d) * d + j]
  {
    Cell(d, i, j);
    RowShiftIndex(d, i, j, j);
    Cell(d, (i + j) % d, j);
    TauStepAt(b, d, p, i * d + j, j);
  }

  /** Step 2 moves row i of A_0 left by k: A[k][i*d + j] = A_0[i*d + (j + k) mod d]. */
  lemma ShiftACell(a0: seq<int>, d: nat, k: int, p: nat, i: int, j: int)
    requires d >= 1 && |a0| == d * d && p >= 1 && Residues(a0, p)
    requires 1 <= k < d && 0 <= i < d && 0 <= j < d
    ensures 0 <= i * d + j < d * d
    ensures 0 <= i * d + (j + k) % d < d * d
    ensures ShiftA(a0, d, k, p)[i * d + j] == a0[i * d + (j + k) % d]
  {
    var l := i * d + j;
    Cell(d, i, j);
    ColShiftIndex(d, i, j, k);
    Cell(d, i, (j + k) % d);
    var x := a0[i * d + (j + k) % d];
    ModOfSmall(x, p);
    ModOfSmall(0, p);
    if j < d - k {
      assert VMul(LeftMask(d, k), VRot(a0, k), p)[l] == x;
      assert VMul(RightMask(d, k), VRot(a0, k - d), p)[l] == 0;
    } else {
      assert VMul(LeftMask(d, k), VRot(a0, k), p)[l] == 0;
      assert VMul(RightMask(d, k), VRot(a0, k - d), p)[l] == x;
    }
  }

  /** Step 2 moves column j of B_0 up by k: B[k][i*d + j] = B_0[((i + k) mod d)*d + j]. */
  lemma ShiftBCell(b0: seq<int>, d: nat, k: int, i: int, j: int)
    requires d >= 1 && |b0| == d * d
    requires 0 <= k < d && 0 <= i < d && 0 <= j < d
    ensures 0 <= i * d + j < d * d
    ensures 0 <= ((i + k) % d) * d + j < d * d
    ensures ShiftB(b0, d, k)[i * d + j] == b0[((i + k) % d) * d + j]
  {
    Cell(d, i, j);
    RowShiftIndex(d, i, j, k);
    Cell(d, (i + k) % d, j);
  }

  /** Summand k of step 3 at slot i * d + j pairs A_0 moved left by k with
      B_0 moved up by k. */
  lemma ProductTermCell(a0: seq<int>, b0: seq<int>, d: nat, p: nat, k: int, i: int, j: int)
    requires d >= 1 && |a0| == d * d && |b0| == d * d && p >= 1 && Residues(a0, p)
    requires 0 <= k < d && 0 <= i < d && 0 <= j < d
    ensures 0 <= i * d + (j + k) % d < d * d && 0 <= ((i + k) % d) * d + j < d * d
    ensures SlotOf(ProductTerms(a0, b0, d, p), k, i * d + j)
         == (a0[i * d + (j + k) % d] * b0[((i + k) % d) * d + j]) % p
  {
    Cell(d, i, j);
    ShiftBCell(b0, d, k, i, j);
    ColShiftIndex(d, i, j, k);
    Cell(d, i, (j + k) % d);
    if k == 0 {
      ModOfSmall(i, d);
      ModOfSmall(j, d);
    } else {
      ShiftACell(a0, d, k, p, i, j);
    }
  }

  /** The terms of entry (i, j) of the product of two flattened d x d matrices. */
  function EntryTerms(a: seq<int>, b: seq<int>, d: nat, i: int, j: int): int -> int {
    t => VAt(a, i * d + t) * VAt(b, t * d + j)
  }

  /** The product within one period is the matrix product:
      AB[i*d + j] = sum over t < d of A[i*d + t] * B[t*d + j], modulo p. */
  lemma PackedProductCell(a: seq<int>, b: seq<int>, d: nat, p: nat, i: int, j: int)
    requires d >= 1 && |a| == d * d && |b| == d * d && p >= 1 && Residues(a, p) && Residues(b, p)
    requires 0 <= i < d && 0 <= j < d
    ensures 0 <= i * d + j < d * d
    ensures PackedProduct(a, b, d, p)[i * d + j]
         == Sum(d, EntryTerms(a, b, d, i, j)) % p
  {
    var c := (i + j) % d;
    var f := EntryTerms(a, b, d, i, j);
    var g := k => f((c + k) % d);
    RotatedCell(a, b, d, i, j, c, f, g);
    Cell(d, i, j);
    var ts, l := ProductTerms(SigmaStep(a, d, p), TauStep(b, d, p), d, p), i * d + j;
    PackedTerms(a, b, d, p, i, j, c, f, g);
    SumOfTerms(ts, d, p, l, f, g, PackedProduct(a, b, d, p));
  }

  /** A period sum whose summands at slot l are the reduced terms g, which
      sum to the same as f. */
  lemma SumOfTerms(ts: seq<seq<int>>, d: nat, p: nat, l: int, f: int -> int, g: int -> int, w: seq<int>)
    requires p >= 1 && |ts| == d && 0 <= l < d * d && w == VAddMany(ts, d * d, p)
    requires forall k :: 0 <= k < d ==> SlotOf(ts, k, l) == g(k) % p
    requires Sum(d, g) == Sum(d, f)
    ensures w[l] == Sum(d, f) % p
  {
    SumMod(d, g, k => SlotOf(ts, k, l), p);
  }

  /** Every summand of step 3 at slot i * d + j, as a term of entry (i, j). */
  lemma PackedTerms(a: seq<int>, b: seq<int>, d: nat, p: nat, i: int, j: int,
                    c: int, f: int -> int, g: int -> int)
    requires d >= 1 && |a| == d * d && |b| == d * d && p >= 1 && Residues(a, p) && Residues(b, p)
    requires 0 <= i < d && 0 <= j < d && c == (i + j) % d
    requires f == EntryTerms(a, b, d, i, j)
    requires forall k :: g(k) == f((c + k) % d)
    ensures 0 <= i * d + j < d * d
    ensures forall k :: 0 <= k < d ==>
      SlotOf(ProductTerms(SigmaStep(a, d, p), TauStep(b, d, p), d, p), k, i * d + j) == g(k) % p
  {
    Cell(d, i, j);
    forall k | 0 <= k < d
      ensures SlotOf(ProductTerms(SigmaStep(a, d, p), TauStep(b, d, p), d, p), k, i * d + j) == g(k) % p
    {
      var m := PackedTermValue(a, b, d, p, i, j, k);
      RotatedTerm(a, b, d, i, j, k, m, c, f, g);
    }
  }

  /** The summands of step 3 list the terms of entry (i, j) starting at
      index (i + j) mod d. */
  lemma RotatedCell(a: seq<int>, b: seq<int>, d: nat, i: int, j: int, c: int, f: int -> int, g: int -> int)
    requires d >= 1 && 0 <= i < d && 0 <= j < d && c == (i + j) % d
    requires f == EntryTerms(a, b, d, i, j)
    requires forall k :: g(k) == f((c + k) % d)
    ensures Sum(d, g) == Sum(d, f)
  {
    SumRotate(d, c, f, g);
  }

  /** The k-th term of entry (i, j), counted from index c, is A[i][m] * B[m][j]. */
  lemma RotatedTerm(a: seq<int>, b: seq<int>, d: nat, i: int, j: int, k: int, m: int,
                    c: int, f: int -> int, g: int -> int)
    requires d >= 1 && |a| == d * d && |b| == d * d
    requires 0 <= i < d && 0 <= j < d && 0 <= m < d && m == (c + k) % d
    requires f == EntryTerms(a, b, d, i, j)
    requires forall k :: g(k) == f((c + k) % d)
    ensures 0 <= i * d + m < d * d && 0 <= m * d + j < d * d
    ensures g(k) == a[i * d + m] * b[m * d + j]
  {
    Cell(d, i, m);
    Cell(d, m, j);
    assert g(k) == f(m);
  }

  /** Summand k of the period-level product at slot i * d + j multiplies
      A[i][m] by B[m][j] with m = (i + j + k) mod d. */
  lemma PackedTermValue(a: seq<int>, b: seq<int>, d: nat, p: nat, i: int, j: int, k: int) returns (m: int)
    requires d >= 1 && |a| == d * d && |b| == d * d && p >= 1 && Residues(a, p) && Residues(b, p)
    requires 0 <= i < d && 0 <= j < d && 0 <= k < d
    ensures m == ((i + j) % d + k) % d && 0 <= m < d
    ensures 0 <= i * d + j < d * d && 0 <= i * d + m < d * d && 0 <= m * d + j < d * d
    ensures SlotOf(ProductTerms(SigmaStep(a, d, p), TauStep(b, d, p), d, p), k, i * d + j)
         == (a[i * d + m] * b[m * d + j]) % p
  {
    Cell(d, i, j);
    m := ((i + j) % d + k) % d;
    Cell(d, i, m);
    Cell(d, m, j);
    var a0, b0 := SigmaStep(a, d, p), TauStep(b, d, p);
    assert Residues(a0, p);
    ProductTermCell(a0, b0, d, p, k, i, j);
    SigmaMeet(a, d, p, i, j, k, m);
    TauMeet(b, d, p, i, j, k, m);
  }

  /** The A side of summand k: A_0[i*d + (j + k) mod d] = A[i][m]. */
  lemma SigmaMeet(a: seq<int>, d: nat, p: nat, i: int, j: int, k: int, m: int)
    requires d >= 1 && |a| == d * d && p >= 1 && Residues(a, p)
    requires 0 <= i < d && 0 <= j < d && 0 <= k < d && m == ((i + j) % d + k) % d
    ensures 0 <= i * d + (j + k) % d < d * d && 0 <= i * d + m < d * d
    ensures SigmaStep(a, d, p)[i * d + (j + k) % d] == a[i * d + m]
  {
    var ja, c := (j + k) % d, (i + j) % d;
    WrapSum(j, k, d);
    WrapSum(i, ja, d);
    WrapSum(i, j, d);
    WrapSum(c, k, d);
    SigmaStepCell(a, d, p, i, ja);
  }

  /** The B side of summand k: B_0[((i + k) mod d)*d + j] = B[m][j]. */
  lemma TauMeet(b: seq<int>, d: nat, p: nat, i: int, j: int, k: int, m: int)
    requires d >= 1 && |b| == d * d && p >= 1 && Residues(b, p)
    requires 0 <= i < d && 0 <= j < d && 0 <= k < d && m == ((i + j) % d + k) % d
    ensures 0 <= ((i + k) % d) * d + j < d * d && 0 <= m * d + j < d * d
    ensures TauStep(b, d, p)[((i + k) % d) * d + j] == b[m * d + j]
  {
    var ib, c := (i + k) % d, (i + j) % d;
    WrapSum(i, k, d);
    WrapSum(ib, j, d);
    WrapSum(i, j, d);
    WrapSum(c, k, d);
    TauStepCell(b, d, p, ib, j);
  }

  /** On flattened residue matrices the period-level product is the
      flattened matrix product. */
  lemma PackedProductIsMatMul(A: Mat, B: Mat, d: nat, p: nat)
    requires d >= 1 && p >= 1 && IsMat(A, d, p) && IsMat(B, d, p)
    ensures PackedProduct(Flatten(A, d), Flatten(B, d), d, p) == Flatten(MatMul(A, B, p), d)
  {
    var a, b := Flatten(A, d), Flatten(B, d);
    FlattenResidues(A, d, p);
    FlattenResidues(B, d, p);
    forall l | 0 <= l < d * d
      ensures PackedProduct(a, b, d, p)[l] == Flatten(MatMul(A, B, p), d)[l]
    {
      Split(d, l);
      PackedProductEntry(A, B, d, p, l / d, l % d);
    }
  }

  /** A flattened residue matrix is a vector of residues. */
  lemma FlattenResidues(M: Mat, d: nat, p: nat)
    requires d >= 1 && IsMat(M, d, p)
    ensures Residues(Flatten(M, d), p)
  {
    forall l | 0 <= l < d * d
      ensures 0 <= Flatten(M, d)[l] < p
    {
      Split(d, l);
    }
  }

  /** Entry (i, j) of the period-level product of flattened matrices is
      entry (i, j) of the matrix product. */
  lemma PackedProductEntry(A: Mat, B: Mat, d: nat, p: nat, i: int, j: int)
    requires d >= 1 && p >= 1 && IsMat(A, d, p) && IsMat(B, d, p)
    requires Residues(Flatten(A, d), p) && Residues(Flatten(B, d), p)
    requires 0 <= i < d && 0 <= j < d
    ensures 0 <= i * d + j < d * d
    ensures PackedProduct(Flatten(A, d), Flatten(B, d), d, p)[i * d + j] == MatMul(A, B, p)[i][j]
  {
    var a, b := Flatten(A, d), Flatten(B, d);
    PackedProductCell(a, b, d, p, i, j);
    EntryTermsAgree(A, B, d, p, i, j);
    SumExt(d, EntryTerms(a, b, d, i, j), Terms(A, B, i, j));
  }

  /** The terms of entry (i, j) read from the flattened matrices are the
      terms of the matrix product. */
  lemma EntryTermsAgree(A: Mat, B: Mat, d: nat, p: nat, i: int, j: int)
    requires d >= 1 && IsMat(A, d, p) && IsMat(B, d, p)
    requires 0 <= i < d && 0 <= j < d
    ensures forall t :: 0 <= t < d ==>
      EntryTerms(Flatten(A, d), Flatten(B, d), d, i, j)(t) == Terms(A, B, i, j)(t)
  {
    var a, b := Flatten(A, d), Flatten(B, d);
    forall t | 0 <= t < d
      ensures EntryTerms(a, b, d, i, j)(t) == Terms(A, B, i, j)(t)
    {
      Cell(d, i, t);
      Cell(d, t, j);
      assert VAt(a, i * d + t) == At(A, i, t);
      assert VAt(b, t * d + j) == At(B, t, j);
    }
  }

  // ---------------------------------------------------------------------------
  // Precomputation and the encrypted product
  // ---------------------------------------------------------------------------

  /** Builds u_sigma[k] slot by slot. */
  method FillSigma(d: nat, k: int) returns (u: seq<int>)
    ensures u == SigmaMask(d, k)
  {
    var n := d * d;
    u := seq(n, _ => 0);
    var l := 0;
    while l < n
      invariant 0 <= l <= n && |u| == n
      invariant forall x :: 0 <= x < n ==> u[x] == if x < l && SigmaSelects(d, k, x) then 1 else 0
    {
      if SigmaSelects(d, k, l) {
        u := u[l := 1];
      }
      l := l + 1;
    }
  }

  /** Builds u_tau[d * k] by setting slot k + d * i for every row i. */
  method FillTau(d: nat, k: int) returns (u: seq<int>)
    requires 0 <= k < d
    ensures u == TauMask(d, k)
  {
    var n := d * d;
    u := seq(n, _ => 0);
    var i := 0;
    while i < d
      invariant 0 <= i <= d && |u| == n
      invariant forall x :: 0 <= x < n ==> u[x] == if x % d == k && x / d < i then 1 else 0
    {
      ColumnSlot(d, k, i);
      u := u[k + d * i := 1];
      i := i + 1;
    }
    RowsInGrid(d);
  }

  /** In column k, slot k + d * i is the only one in row i. */
  lemma ColumnSlot(d: nat, k: int, i: int)
    requires 0 <= k < d && 0 <= i < d
    ensures 0 <= k + d * i < d * d && (k + d * i) % d == k && (k + d * i) / d == i
    ensures forall x :: 0 <= x < d * d && x % d == k ==> (x / d == i <==> x == k + d * i)
  {
    Cell(d, i, k);
    forall x | 0 <= x < d * d && x % d == k
      ensures x / d == i <==> x == k + d * i
    {
      Split(d, x);
    }
  }

  /** Every slot of the grid lies in one of its d rows. */
  lemma RowsInGrid(d: nat)
    ensures forall x :: 0 <= x < d * d ==> x / d < d
  {
    forall x | 0 <= x < d * d
      ensures x / d < d
    {
      Split(d, x);
    }
  }

  /** Builds v1[k] and v2[k - d] slot by slot. */
  method FillSteps(d: nat, k: int) returns (v1k: seq<int>, v2k: seq<int>)
    requires d >= 1
    ensures v1k == LeftMask(d, k) && v2k == RightMask(d, k)
  {
    var n := d * d;
    v1k, v2k := seq(n, _ => 0), seq(n, _ => 0);
    var l := 0;
    while l < n
      invariant 0 <= l <= n && |v1k| == n && |v2k| == n
      invariant forall x :: 0 <= x < n ==> v1k[x] == if x < l && x % d < d - k then 1 else 0
      invariant forall x :: 0 <= x < n ==> v2k[x] == if x < l && d - k <= x % d < d then 1 else 0
    {
      if 0 <= l % d && l % d < d - k {
        v1k := v1k[l := 1];
      }
      if d - k <= l % d && l % d < d {
        v2k := v2k[l := 1];
      }
      l := l + 1;
    }
  }

  /** us[k] is the encrypted u_sigma[k] for every k in [-d, d]. */
  ghost predicate SigmaMasks(cc: Context, d: nat, us: map<int, Ct>)
    requires ValidContext(cc) && d >= 1
  {
    forall k :: -(d as int) <= k <= d ==> k in us && us[k] == RepFill(cc, SigmaMask(d, k))
  }

  /** ut[d * k] is the encrypted u_tau[d * k] for every k < d. */
  ghost predicate TauMasks(cc: Context, d: nat, ut: map<int, Ct>)
    requires ValidContext(cc) && d >= 1
  {
    forall k :: 0 <= k < d ==> d * k in ut && ut[d * k] == RepFill(cc, TauMask(d, k))
  }

  /** w1[k] and w2[k - d] are the encrypted v1[k] and v2[k - d] for 1 <= k < d. */
  ghost predicate StepMasks(cc: Context, d: nat, w1: map<int, Ct>, w2: map<int, Ct>)
    requires ValidContext(cc) && d >= 1
  {
    forall k :: 1 <= k < d ==>
      (k in w1 && k - d in w2 && w1[k] == RepFill(cc, LeftMask(d, k)) && w2[k - d] == RepFill(cc, RightMask(d, k)))
  }

  /** The masks of the matrix product, encrypted once per crypto context and
      dimension d. */
  class InitMatrixMult {
    const cc: Context
    const d: nat
    var uSigma: map<int, Ct>
    var uTau: map<int, Ct>
    var v1: map<int, Ct>
    var v2: map<int, Ct>
    /** Ones on the d * d payload slots, zero elsewhere. */
    var matrixMask: Ct

    ghost predicate Valid()
      reads this
    {
      ValidContext(cc) && d >= 1 && Tiles(cc, d * d) && d * d <= cc.S
      && (forall k :: k in uSigma <==> -(d as int) <= k <= d) && SigmaMasks(cc, d, uSigma)
      && (forall key :: key in uTau ==> 0 <= key < d * d && key % d == 0) && TauMasks(cc, d, uTau)
      && (forall k :: k in v1 <==> 1 <= k < d) && (forall k :: k in v2 <==> -(d as int) < k < 0)
      && StepMasks(cc, d, v1, v2)
      && matrixMask == Pack(cc, seq(d * d, _ => 1))
    }

    constructor (cc: Context, d: nat)
      requires ValidContext(cc) && d >= 1 && Tiles(cc, d * d)
      ensures Valid() && this.cc == cc && this.d == d
    {
      TilesFit(cc, d * d);
      this.cc := cc;
      this.d := d;
      var us := BuildSigmaMasks(cc, d);
      var ut := BuildTauMasks(cc, d);
      var w1, w2 := BuildStepMasks(cc, d);
      uSigma, uTau, v1, v2 := us, ut, w1, w2;
      matrixMask := Pack(cc, seq(d * d, _ => 1));
    }
  }

  /** Step 1-1 of the precomputation: u_sigma[k] for k = -d, ..., d. */
  method BuildSigmaMasks(cc: Context, d: nat) returns (us: map<int, Ct>)
    requires ValidContext(cc) && d >= 1
    ensures forall k :: k in us <==> -(d as int) <= k <= d
    ensures SigmaMasks(cc, d, us)
  {
    us := map[];
    var k: int := -(d as int);
    while k <= d
      invariant -(d as int) <= k <= d + 1
      invariant forall k' :: k' in us <==> -(d as int) <= k' < k
      invariant forall k' :: -(d as int) <= k' < k ==> us[k'] == RepFill(cc, SigmaMask(d, k'))
    {
      var u := FillSigma(d, k);
      us := us[k := RepFill(cc, u)];
      k := k + 1;
    }
  }

  /** Step 1-2 of the precomputation: u_tau[d * k] for k = 0, ..., d - 1. */
  method BuildTauMasks(cc: Context, d: nat) returns (ut: map<int, Ct>)
    requires ValidContext(cc) && d >= 1
    ensures forall key :: key in ut ==> 0 <= key < d * d && key % d == 0
    ensures TauMasks(cc, d, ut)
  {
    ut := map[];
    var k := 0;
    while k < d
      invariant 0 <= k <= d
      invariant forall key :: key in ut ==> 0 <= key < d * k && key % d == 0
      invariant forall k' :: 0 <= k' < k ==> d * k' in ut && ut[d * k'] == RepFill(cc, TauMask(d, k'))
    {
      var u := FillTau(d, k);
      TauKeyFresh(d, k);
      ut := ut[d * k := RepFill(cc, u)];
      k := k + 1;
    }
  }

  /** Step 2 of the precomputation: v1[k] and v2[k - d] for k = 1, ..., d - 1. */
  method BuildStepMasks(cc: Context, d: nat) returns (w1: map<int, Ct>, w2: map<int, Ct>)
    requires ValidContext(cc) && d >= 1
    ensures forall k :: k in w1 <==> 1 <= k < d
    ensures forall k :: k in w2 <==> -(d as int) < k < 0
    ensures StepMasks(cc, d, w1, w2)
  {
    w1, w2 := map[], map[];
    var k := 1;
    while k < d
      invariant 1 <= k <= d
      invariant forall k' :: k' in w1 <==> 1 <= k' < k
      invariant forall k' :: 1 <= k' < k ==> w1[k'] == RepFill(cc, LeftMask(d, k'))
      invariant forall k' :: k' in w2 <==> -(d as int) < k' < k - d
      invariant forall k' :: 1 <= k' < k ==> w2[k' - d] == RepFill(cc, RightMask(d, k'))
    {
      var v1k, v2k := FillSteps(d, k);
      w1 := w1[k := RepFill(cc, v1k)];
      w2 := w2[k - d := RepFill(cc, v2k)];
      k := k + 1;
    }
  }

  /** Adding key d * k to the keys d * k' with k' < k keeps them multiples of
      d below d * (k + 1), and the new key is none of the old ones. */
  lemma TauKeyFresh(d: nat, k: int)
    requires d >= 1 && 0 <= k < d
    ensures d * (k + 1) == d * k + d && (d * k) % d == 0
    ensures forall k' :: 0 <= k' < k ==> d * k' < d * k
  {
    ModOfMultiple(k, d);
    forall k' | 0 <= k' < k
      ensures d * k' < d * k
    {
      MulMono(k', k - 1, d);
    }
  }

  /** Step 1-1's summands: Rot(A, k) * u_sigma[k] for k = -d, ..., d. */
  function SigmaTerms(cc: Context, encA: Ct, d: nat, us: map<int, Ct>): (cs: seq<Ct>)
    requires ValidContext(cc) && forall k :: -(d as int) <= k <= d ==> k in us
    ensures |cs| == 2 * d + 1
  {
    seq(2 * d + 1, t requires 0 <= t < 2 * d + 1 => Mult(cc, Rotate(cc, encA, t - d), us[t - d]))
  }

  /** Step 1-2's summands: Rot(B, d * k) * u_tau[d * k] for k < d. */
  function TauTerms(cc: Context, encB: Ct, d: nat, ut: map<int, Ct>): (cs: seq<Ct>)
    requires ValidContext(cc) && forall k :: 0 <= k < d ==> d * k in ut
    ensures |cs| == d
  {
    seq(d, k requires 0 <= k < d => Mult(cc, Rotate(cc, encB, d * k), ut[d * k]))
  }

  /** Step 2 for one k: A[k] = v1[k] * Rot(A_0, k) + v2[k - d] * Rot(A_0, k - d). */
  function StepA(cc: Context, a0: Ct, d: nat, k: int, w1: map<int, Ct>, w2: map<int, Ct>): (c: Ct)
    requires ValidContext(cc) && k in w1 && k - d in w2
    ensures IsCt(cc, c)
  {
    Add(cc, Mult(cc, w1[k], Rotate(cc, a0, k)), Mult(cc, w2[k - d], Rotate(cc, a0, k - d)))
  }

  /** Step 3's summands: A_0 * B_0 and A[k] * B[k] with B[k] = Rot(B_0, d * k)
      for k = 1, ..., d - 1. */
  function StepTerms(cc: Context, a0: Ct, b0: Ct, d: nat, w1: map<int, Ct>, w2: map<int, Ct>): (cs: seq<Ct>)
    requires ValidContext(cc) && d >= 1 && StepMasks(cc, d, w1, w2)
    ensures |cs| == d
  {
    [Mult(cc, a0, b0)] + seq(d - 1, t requires 0 <= t < d - 1 =>
      Mult(cc, StepA(cc, a0, d, t + 1, w1, w2), Rotate(cc, b0, d * (t + 1))))
  }

  /** evalMatrixMult: steps 1-1, 1-2, 2 and 3 of the Jiang-Kim-Lauter-Song
      product on replicated ciphertexts, with the masks of mm. */
  function MatrixMult(cc: Context, encA: Ct, encB: Ct, mm: InitMatrixMult): (c: Ct)
    requires mm.Valid() && cc == mm.cc
    reads mm
    ensures IsCt(cc, c)
  {
    var a0 := AddMany(cc, SigmaTerms(cc, encA, mm.d, mm.uSigma));
    var b0 := AddMany(cc, TauTerms(cc, encB, mm.d, mm.uTau));
    AddMany(cc, StepTerms(cc, a0, b0, mm.d, mm.v1, mm.v2))
  }

  /** Step 1-1 on a replicated ciphertext. */
  lemma SigmaStepSlots(cc: Context, d: nat, us: map<int, Ct>, a: seq<int>)
    requires ValidContext(cc) && d >= 1 && Tiles(cc, d * d) && |a| == d * d
    requires SigmaMasks(cc, d, us)
    ensures AddMany(cc, SigmaTerms(cc, RepFill(cc, a), d, us)) == RepFill(cc, SigmaStep(a, d, cc.p))
  {
    var cs := SigmaTerms(cc, RepFill(cc, a), d, us);
    var vs := SigmaParts(a, d, cc.p);
    forall t | 0 <= t < 2 * d + 1
      ensures |vs[t]| == d * d && cs[t] == RepFill(cc, vs[t])
    {
      RepFillRotate(cc, a, t - d);
      RepFillMult(cc, VRot(a, t - d), SigmaMask(d, t - d));
    }
    RepFillAddMany(cc, cs, vs, d * d);
  }

  /** Step 1-2 on a replicated ciphertext. */
  lemma TauStepSlots(cc: Context, d: nat, ut: map<int, Ct>, b: seq<int>)
    requires ValidContext(cc) && d >= 1 && Tiles(cc, d * d) && |b| == d * d
    requires TauMasks(cc, d, ut)
    ensures AddMany(cc, TauTerms(cc, RepFill(cc, b), d, ut)) == RepFill(cc, TauStep(b, d, cc.p))
  {
    var cs := TauTerms(cc, RepFill(cc, b), d, ut);
    var vs := TauParts(b, d, cc.p);
    forall k | 0 <= k < d
      ensures |vs[k]| == d * d && cs[k] == RepFill(cc, vs[k])
    {
      RepFillRotate(cc, b, d * k);
      RepFillMult(cc, VRot(b, d * k), TauMask(d, k));
    }
    RepFillAddMany(cc, cs, vs, d * d);
  }

  /** Step 2 and the step-3 summand k on replicated ciphertexts. */
  lemma StepTermSlots(cc: Context, d: nat, w1: map<int, Ct>, w2: map<int, Ct>, a0: seq<int>, b0: seq<int>, k: int)
    requires ValidContext(cc) && d >= 1 && Tiles(cc, d * d) && |a0| == d * d && |b0| == d * d && 1 <= k < d
    requires StepMasks(cc, d, w1, w2)
    ensures Mult(cc, StepA(cc, RepFill(cc, a0), d, k, w1, w2), Rotate(cc, RepFill(cc, b0), d * k))
         == RepFill(cc, VMul(ShiftA(a0, d, k, cc.p), ShiftB(b0, d, k), cc.p))
  {
    var p := cc.p;
    RepFillRotate(cc, a0, k);
    RepFillRotate(cc, a0, k - d);
    RepFillRotate(cc, b0, d * k);
    RepFillMult(cc, LeftMask(d, k), VRot(a0, k));
    RepFillMult(cc, RightMask(d, k), VRot(a0, k - d));
    RepFillAdd(cc, VMul(LeftMask(d, k), VRot(a0, k), p), VMul(RightMask(d, k), VRot(a0, k - d), p));
    RepFillMult(cc, ShiftA(a0, d, k, p), ShiftB(b0, d, k));
  }

  /** Step 3 on replicated ciphertexts. */
  lemma ProductSlots(cc: Context, d: nat, w1: map<int, Ct>, w2: map<int, Ct>, a0: seq<int>, b0: seq<int>)
    requires ValidContext(cc) && d >= 1 && Tiles(cc, d * d) && |a0| == d * d && |b0| == d * d
    requires StepMasks(cc, d, w1, w2)
    ensures AddMany(cc, StepTerms(cc, RepFill(cc, a0), RepFill(cc, b0), d, w1, w2))
         == RepFill(cc, VAddMany(ProductTerms(a0, b0, d, cc.p), d * d, cc.p))
  {
    var cs := StepTerms(cc, RepFill(cc, a0), RepFill(cc, b0), d, w1, w2);
    var vs := ProductTerms(a0, b0, d, cc.p);
    forall k | 0 <= k < d
      ensures |vs[k]| == d * d && cs[k] == RepFill(cc, vs[k])
    {
      if k == 0 {
        RepFillMult(cc, a0, b0);
      } else {
        StepTermSlots(cc, d, w1, w2, a0, b0, k);
      }
    }
    RepFillAddMany(cc, cs, vs, d * d);
  }

  /** On replicated inputs evalMatrixMult computes the period-level product
      in every period. */
  lemma MatrixMultSlots(cc: Context, mm: InitMatrixMult, a: seq<int>, b: seq<int>)
    requires mm.Valid() && cc == mm.cc && |a| == mm.d * mm.d && |b| == mm.d * mm.d
    ensures MatrixMult(cc, RepFill(cc, a), RepFill(cc, b), mm) == RepFill(cc, PackedProduct(a, b, mm.d, cc.p))
  {
    var d, p := mm.d, cc.p;
    SigmaStepSlots(cc, d, mm.uSigma, a);
    TauStepSlots(cc, d, mm.uTau, b);
    ProductSlots(cc, d, mm.v1, mm.v2, SigmaStep(a, d, p), TauStep(b, d, p));
  }

  /** evalMatrixMult multiplies matrices: on replicated row-major encodings
      of A and B it returns the replicated row-major encoding of A B mod p. */
  lemma MatrixMultCorrect(cc: Context, mm: InitMatrixMult, A: Mat, B: Mat)
    requires mm.Valid() && cc == mm.cc && IsMat(A, mm.d, cc.p) && IsMat(B, mm.d, cc.p)
    ensures MatrixMult(cc, RepFill(cc, Flatten(A, mm.d)), RepFill(cc, Flatten(B, mm.d)), mm)
         == RepFill(cc, Flatten(MatMul(A, B, cc.p), mm.d))
  {
    MatrixMultSlots(cc, mm, Flatten(A, mm.d), Flatten(B, mm.d));
    PackedProductIsMatMul(A, B, mm.d, cc.p);
  }
}
