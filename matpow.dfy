/** Encrypted matrix square-and-multiply: the balanced product of a
    power-of-two number of element-wise encrypted matrices, the repeated
    squarings of a row-wise encrypted matrix, and the exponentiation that
    selects and groups squarings by the bits of the exponent. */
module MatPower {
  import opened Wrappers
  import opened ModArith
  import opened Slots
  import opened Matrices
  import opened Packing

  /** The matrices a list of element-wise encryptions decrypts to. */
  function DecodeAll(Es: seq<ElemMat>): (Ms: seq<Mat>)
    ensures |Ms| == |Es|
  {
    seq(|Es|, k requires 0 <= k < |Es| => DecodeElems(Es[k]))
  }

  /** Every entry of the list is an element-wise encrypted n x n matrix. */
  predicate ElemEncs(cc: Context, Es: seq<ElemMat>, n: nat) {
    forall k :: 0 <= k < |Es| ==> IsElemEnc(cc, Es[k], n)
  }

  /** The element-wise encryptions of A^e for each e of a list. */
  function PowElems(cc: Context, A: Mat, es: seq<nat>, p: nat): (Es: seq<ElemMat>)
    requires p >= 1 && AllPositive(es)
    ensures |Es| == |es|
  {
    seq(|es|, k requires 0 <= k < |es| => ElemEnc(cc, MatPow(A, es[k], p)))
  }

  /** Encryptions of powers of one matrix are well formed and decrypt to the powers. */
  lemma PowElemsDecode(cc: Context, A: Mat, es: seq<nat>, n: nat)
    requires ValidContext(cc) && IsMat(A, n, cc.p) && n <= cc.S
    requires AllPositive(es)
    ensures ElemEncs(cc, PowElems(cc, A, es, cc.p), n)
    ensures DecodeAll(PowElems(cc, A, es, cc.p))
         == seq(|es|, k requires 0 <= k < |es| => MatPow(A, es[k], cc.p))
  {
    forall k | 0 <= k < |es|
      ensures IsElemEnc(cc, PowElems(cc, A, es, cc.p)[k], n)
      ensures DecodeElems(PowElems(cc, A, es, cc.p)[k]) == MatPow(A, es[k], cc.p)
    {
      ElemEncRoundTrip(cc, MatPow(A, es[k], cc.p), n);
    }
  }

  lemma PowElemsAppend(cc: Context, A: Mat, es: seq<nat>, e: nat, p: nat)
    requires p >= 1 && e >= 1 && AllPositive(es)
    ensures PowElems(cc, A, es + [e], p) == PowElems(cc, A, es, p) + [ElemEnc(cc, MatPow(A, e, p))]
  {
  }

  lemma PowElemsPrefix(cc: Context, A: Mat, es: seq<nat>, k: nat, p: nat)
    requires p >= 1 && k <= |es| && AllPositive(es)
    ensures PowElems(cc, A, es[..k], p) == PowElems(cc, A, es, p)[..k]
  {
  }

  // ---------------------------------------------------------------------------
  // evalMatrixMul2Pow
  // ---------------------------------------------------------------------------

  /** The count check of evalMatrixMul2Pow: among bits 0..31 of the number of
      matrices exactly one is set, and it is not bit 0. */
  predicate Mul2PowAccepts(m: nat) {
    CountBits(m, 32) == 1 && Bit(m, 0) == 0
  }

  /** Below 2^32 the check accepts exactly the powers of two from 2 on. */
  lemma Mul2PowAcceptsPowersOfTwo(m: nat)
    requires m < Pow2(32)
    ensures Mul2PowAccepts(m) <==> IsPowerOfTwo(m) && m >= 2
  {
    var c := CountBits(m, 32);
    assert c == 1 <==> IsPowerOfTwo(m) by {
      CountBitsOne(m, 32);
    }
    if IsPowerOfTwo(m) {
      PowerOfTwoLowBit(m);
    }
  }

  /** The only odd power of two is 1. */
  lemma PowerOfTwoLowBit(m: nat)
    requires IsPowerOfTwo(m)
    ensures Bit(m, 0) == 0 <==> m >= 2
  {
  }

  /** An accepted count of four or more halves into accepted counts. */
  lemma HalfAccepted(m: nat)
    requires Mul2PowAccepts(m) && m < Pow2(32) && m != 2
    ensures Mul2PowAccepts(m / 2) && m / 2 < Pow2(32) && m - m / 2 == m / 2 && m / 2 >= 2
  {
    Mul2PowAcceptsPowersOfTwo(m);
    Mul2PowAcceptsPowersOfTwo(m / 2);
  }

  lemma PowerCountAccepted(i: nat)
    requires 1 <= i < 32
    ensures Mul2PowAccepts(Pow2(i)) && Pow2(i) < Pow2(32)
  {
    Pow2Monotone(i + 1, 32);
    Pow2IsPowerOfTwo(i);
    Mul2PowAcceptsPowersOfTwo(Pow2(i));
  }

  /** The bit scan of evalMatrixMul2Pow: the number of set bits among bits
      0..31 of m, and one plus the position of the lowest of them (-1 if none). */
  method ScanLowBits(m: nat) returns (bitCtr: nat, msbPosition: int)
    ensures bitCtr == CountBits(m, 32)
    ensures msbPosition == 1 <==> Bit(m, 0) == 1
  {
    bitCtr, msbPosition := 0, -1;
    var i := 0;
    while i < 32
      invariant 0 <= i <= 32 && bitCtr == CountBits(m, i)
      invariant msbPosition == -1 || msbPosition >= 1
      invariant i == 0 ==> msbPosition == -1
      invariant msbPosition == 1 <==> i >= 1 && Bit(m, 0) == 1
    {
      CountBitsStep(m, i);
      if Bit(m, i) == 1 {
        bitCtr := bitCtr + 1;
        if msbPosition == -1 {
          msbPosition := i + 1;
        }
      }
      i := i + 1;
    }
  }

  /** Entry (row, col) of A * B from the row-wise encryption of A and the
      column-wise encryption of B: an inner product masked to slot 0. */
  lemma ProductEntry(cc: Context, A: Mat, B: Mat, n: nat, row: int, col: int)
    requires ValidContext(cc) && IsMat(A, n, cc.p) && IsMat(B, n, cc.p) && n <= cc.S
    requires 0 <= row < n && 0 <= col < n
    ensures Mult(cc, InnerProduct(cc, RowEnc(cc, A)[row], ColEnc(cc, B)[col], n), Unit(cc, 0, 1))
         == Unit(cc, 0, MatMul(A, B, cc.p)[row][col])
  {
    var R, C := RowEnc(cc, A), ColEnc(cc, B);
    RowEncRoundTrip(cc, A, n);
    TransposeIsMat(B, n, cc.p);
    RowEncRoundTrip(cc, Transpose(B), n);
    RowEncSlots(cc, R, n, row);
    RowEncSlots(cc, C, n, col);
    SumExt(n, j => Slot(R[row], j) * Slot(C[col], j), Terms(A, B, row, col));
    MaskedInnerProduct(cc, R[row], C[col], n);
  }

  /** The element-wise product loop of evalMatrixMul2Pow and of the first
      squaring: every entry is a row dotted with a column, masked to slot 0. */
  method MaskedProducts(cc: Context, masks: seq<Ct>, leftRows: seq<Ct>, rightCols: seq<Ct>,
                        ghost A: Mat, ghost B: Mat) returns (prod: ElemMat)
    requires ValidContext(cc) && IsMat(A, |A|, cc.p) && IsMat(B, |A|, cc.p) && |A| <= cc.S
    requires leftRows == RowEnc(cc, A) && rightCols == ColEnc(cc, B) && MasksFor(cc, masks, |A|)
    ensures prod == ElemEnc(cc, MatMul(A, B, cc.p))
  {
    var n := |leftRows|;
    ghost var C := MatMul(A, B, cc.p);
    prod := [];
    var row := 0;
    while row < n
      invariant 0 <= row <= n && prod == ElemEnc(cc, C)[..row]
    {
      var encMatElemRow: seq<Ct> := [];
      var col := 0;
      while col < n
        invariant 0 <= col <= n && encMatElemRow == ElemEnc(cc, C)[row][..col]
      {
        var encElem := InnerProduct(cc, leftRows[row], rightCols[col], n);
        var encElemMasked := Mult(cc, encElem, masks[0]);
        ProductEntry(cc, A, B, n, row, col);
        encMatElemRow := encMatElemRow + [encElemMasked];
        col := col + 1;
      }
      assert encMatElemRow == ElemEnc(cc, C)[row];
      prod := prod + [encMatElemRow];
      row := row + 1;
    }
  }

  /** evalMatrixMul2Pow: the ordered product of the matrices, by balanced
      recursion on the two halves.  A count that fails the power-of-two check
      aborts (None). */
  method MatrixMul2Pow(cc: Context, masks: seq<Ct>, encMatsElems: seq<ElemMat>) returns (r: Option<ElemMat>)
    requires ValidContext(cc)
    requires |encMatsElems| >= 1 ==>
               ElemEncs(cc, encMatsElems, |encMatsElems[0]|) && MasksFor(cc, masks, |encMatsElems[0]|)
    ensures r.Some? ==> Mul2PowAccepts(|encMatsElems|) && |encMatsElems| >= 2
                        && r.value == ElemEnc(cc, ChainProduct(DecodeAll(encMatsElems), cc.p))
    ensures Mul2PowAccepts(|encMatsElems|) && |encMatsElems| < Pow2(32) ==> r.Some?
    decreases |encMatsElems|
  {
    var numMats := |encMatsElems|;
    var bitCtr, msbPosition := ScanLowBits(numMats);
    if !(bitCtr == 1 && msbPosition != 1) {
      return None;
    }
    if numMats == 0 {
      CountBitsZero(0, 32);
    }
    var n := |encMatsElems[0]|;
    if numMats == 2 {
      var prod := PairProduct(cc, masks, encMatsElems);
      r := Some(prod);
    } else {
      var half := numMats / 2;
      HalvesEncs(cc, encMatsElems, n, half);
      var leftMatElems := MatrixMul2Pow(cc, masks, encMatsElems[..half]);
      var rightMatElems := MatrixMul2Pow(cc, masks, encMatsElems[half..]);
      if numMats < Pow2(32) {
        HalfAccepted(numMats);
        assert |encMatsElems[half..]| == half && |encMatsElems[..half]| == half;
        assert leftMatElems.Some? && rightMatElems.Some?;
      }
      if leftMatElems.None? || rightMatElems.None? {
        return None;
      }
      var pair := [leftMatElems.value, rightMatElems.value];
      HalvesCombine(cc, encMatsElems, n, half, pair);
      PowerCountAccepted(1);
      assert Mul2PowAccepts(|pair|) && |pair| < Pow2(32);
      r := MatrixMul2Pow(cc, masks, pair);
    }
  }

  /** The base case of evalMatrixMul2Pow: the left matrix is re-encrypted
      by rows, the right one by columns, and their product formed entry by entry. */
  method PairProduct(cc: Context, masks: seq<Ct>, encMatsElems: seq<ElemMat>) returns (prod: ElemMat)
    requires ValidContext(cc) && |encMatsElems| == 2
    requires ElemEncs(cc, encMatsElems, |encMatsElems[0]|) && MasksFor(cc, masks, |encMatsElems[0]|)
    ensures prod == ElemEnc(cc, ChainProduct(DecodeAll(encMatsElems), cc.p))
  {
    var n := |encMatsElems[0]|;
    ghost var Ms := DecodeAll(encMatsElems);
    assert AllMats(Ms, n, cc.p);
    var leftEncMat := EncElem2Rows(cc, encMatsElems[0]);
    var rightEncMat := EncElem2Cols(cc, encMatsElems[1]);
    prod := MaskedProducts(cc, masks, leftEncMat, rightEncMat, Ms[0], Ms[1]);
    assert Ms == [Ms[0], Ms[1]];
    ChainOfTwo(Ms[0], Ms[1], cc.p);
  }

  /** Both halves of a list of encryptions are lists of encryptions of the same size. */
  lemma HalvesEncs(cc: Context, Es: seq<ElemMat>, n: nat, half: nat)
    requires ElemEncs(cc, Es, n) && 1 <= half < |Es|
    ensures ElemEncs(cc, Es[..half], n) && |Es[..half][0]| == n
    ensures ElemEncs(cc, Es[half..], n) && |Es[half..][0]| == n
  {
    assert Es[half..][0] == Es[half];
  }

  /** The products of the two halves, as a pair, have the same chain product
      as the whole list. */
  lemma HalvesCombine(cc: Context, Es: seq<ElemMat>, n: nat, half: nat, pair: seq<ElemMat>)
    requires ValidContext(cc) && ElemEncs(cc, Es, n) && 1 <= half < |Es|
    requires |pair| == 2
    requires pair[0] == ElemEnc(cc, ChainProduct(DecodeAll(Es[..half]), cc.p))
    requires pair[1] == ElemEnc(cc, ChainProduct(DecodeAll(Es[half..]), cc.p))
    ensures ElemEncs(cc, pair, n)
    ensures ChainProduct(DecodeAll(pair), cc.p) == ChainProduct(DecodeAll(Es), cc.p)
  {
    var Ms := DecodeAll(Es);
    assert AllMats(Ms, n, cc.p);
    assert DecodeAll(Es[..half]) == Ms[..half];
    assert DecodeAll(Es[half..]) == Ms[half..];
    var L, R := ChainProduct(Ms[..half], cc.p), ChainProduct(Ms[half..], cc.p);
    ElemEncRoundTrip(cc, L, n);
    ElemEncRoundTrip(cc, R, n);
    assert DecodeAll(pair) == [L, R];
    ChainOfTwo(L, R, cc.p);
    ChainSplit(Ms, half, n, cc.p);
  }

  // ---------------------------------------------------------------------------
  // evalMatSquarings
  // ---------------------------------------------------------------------------

  /** The 0-th squaring of evalMatSquarings: each entry of the row-wise
      encrypted matrix is isolated with its column's mask and rotated to slot 0. */
  method RowsToElems(cc: Context, masks: seq<Ct>, encMatRows: seq<Ct>) returns (encElemContainer: ElemMat)
    requires IsRowEnc(cc, encMatRows, |encMatRows|) && MasksFor(cc, masks, |encMatRows|)
    ensures encElemContainer == ElemEnc(cc, DecodeRows(encMatRows))
  {
    var n := |encMatRows|;
    ghost var A := DecodeRows(encMatRows);
    encElemContainer := [];
    var row := 0;
    while row < n
      invariant 0 <= row <= n && encElemContainer == ElemEnc(cc, A)[..row]
    {
      RowEncSlots(cc, encMatRows, n, row);
      var encElemRow: seq<Ct> := [];
      var col := 0;
      while col < n
        invariant 0 <= col <= n && encElemRow == ElemEnc(cc, A)[row][..col]
      {
        var encElemMasked := Mult(cc, encMatRows[row], masks[col]);
        MultByMask(cc, encMatRows[row], col);
        RotateUnit(cc, col, 0, encMatRows[row][col]);
        var res := Rotate(cc, encElemMasked, col);
        encElemRow := encElemRow + [res];
        col := col + 1;
      }
      assert encElemRow == ElemEnc(cc, A)[row];
      encElemContainer := encElemContainer + [encElemRow];
      row := row + 1;
    }
  }

  /** The element-wise encryptions of A^(2^k), for k < m. */
  function Squarings(cc: Context, A: Mat, m: nat): (Es: seq<ElemMat>)
    requires ValidContext(cc)
    ensures |Es| == m
  {
    seq(m, k requires 0 <= k < m => ElemEnc(cc, MatPow(A, Pow2(k), cc.p)))
  }

  lemma SquaringsAppend(cc: Context, A: Mat, m: nat)
    requires ValidContext(cc)
    ensures Squarings(cc, A, m + 1) == Squarings(cc, A, m) + [ElemEnc(cc, MatPow(A, Pow2(m), cc.p))]
  {
  }

  /** evalMatSquarings: entry i is A^(2^i) in element-wise form, for i = 0..sqs. */
  method MatSquarings(cc: Context, masks: seq<Ct>, encMatRows: seq<Ct>, sqs: int) returns (encSqMatElems: seq<ElemMat>)
    requires IsRowEnc(cc, encMatRows, |encMatRows|) && MasksFor(cc, masks, |encMatRows|)
    ensures encSqMatElems == Squarings(cc, DecodeRows(encMatRows), if sqs < 0 then 0 else sqs + 1)
  {
    ghost var A := DecodeRows(encMatRows);
    encSqMatElems := [];
    var i := 0;
    while i <= sqs
      invariant 0 <= i && (sqs < 0 ==> i == 0) && (sqs >= 0 ==> i <= sqs + 1)
      invariant encSqMatElems == Squarings(cc, A, i)
    {
      var next := NextSquaring(cc, masks, encMatRows, encSqMatElems, i);
      SquaringsAppend(cc, A, i);
      encSqMatElems := encSqMatElems + [next];
      i := i + 1;
    }
  }

  /** One iteration of evalMatSquarings: the 0-th squaring is A itself, the
      first is computed from the row- and column-wise encryptions, and every
      later one squares the previous result with evalMatrixMul2Pow. */
  method NextSquaring(cc: Context, masks: seq<Ct>, encMatRows: seq<Ct>, prevs: seq<ElemMat>, i: nat)
    returns (next: ElemMat)
    requires IsRowEnc(cc, encMatRows, |encMatRows|) && MasksFor(cc, masks, |encMatRows|)
    requires prevs == Squarings(cc, DecodeRows(encMatRows), i)
    ensures next == ElemEnc(cc, MatPow(DecodeRows(encMatRows), Pow2(i), cc.p))
  {
    var n := |encMatRows|;
    ghost var A := DecodeRows(encMatRows);
    if i == 0 {
      next := RowsToElems(cc, masks, encMatRows);
      assert MatPow(A, Pow2(0), cc.p) == A;
    } else if i == 1 {
      var encMatCols := RowToColEnc(cc, masks, encMatRows);
      next := MaskedProducts(cc, masks, encMatRows, encMatCols, A, A);
      assert MatPow(A, Pow2(1), cc.p) == MatMul(A, A, cc.p);
    } else {
      next := SquarePrevious(cc, masks, prevs[i - 1], A, n, i);
    }
  }

  /** A later iteration of evalMatSquarings: the previous squaring is put in
      a two-element container and multiplied with evalMatrixMul2Pow. */
  method SquarePrevious(cc: Context, masks: seq<Ct>, last: ElemMat, ghost A: Mat, n: nat, i: nat)
    returns (next: ElemMat)
    requires ValidContext(cc) && IsMat(A, n, cc.p) && n <= cc.S && i >= 1 && MasksFor(cc, masks, n)
    requires last == ElemEnc(cc, MatPow(A, Pow2(i - 1), cc.p))
    ensures next == ElemEnc(cc, MatPow(A, Pow2(i), cc.p))
  {
    var encMatContainer := [last, last];
    SquaringStep(cc, A, n, i, encMatContainer);
    var encRes := MatrixMul2Pow(cc, masks, encMatContainer);
    next := encRes.value;
  }

  /** Multiplying A^(2^(i-1)) by itself gives A^(2^i). */
  lemma SquaringStep(cc: Context, A: Mat, n: nat, i: nat, pair: seq<ElemMat>)
    requires ValidContext(cc) && IsMat(A, n, cc.p) && n <= cc.S && i >= 1
    requires pair == [ElemEnc(cc, MatPow(A, Pow2(i - 1), cc.p)), ElemEnc(cc, MatPow(A, Pow2(i - 1), cc.p))]
    ensures ElemEncs(cc, pair, n) && Mul2PowAccepts(|pair|) && |pair| < Pow2(32)
    ensures ChainProduct(DecodeAll(pair), cc.p) == MatPow(A, Pow2(i), cc.p)
  {
    var B := MatPow(A, Pow2(i - 1), cc.p);
    ElemEncRoundTrip(cc, B, n);
    assert DecodeAll(pair) == [B, B];
    PowerCountAccepted(1);
    ChainOfTwo(B, B, cc.p);
    MatPowSquare(A, Pow2(i - 1), cc.p);
  }

  // ---------------------------------------------------------------------------
  // evalMatSqMul: selection and grouping of squarings
  // ---------------------------------------------------------------------------

  /** The exponent scan of evalMatSqMul: one plus the position of the highest
      set bit of u among bits 0..31, or -1 when u is zero. */
  method MsbScan(u: nat) returns (msbPosition: int)
    requires u < Pow2(32)
    ensures msbPosition == if u == 0 then -1 else BitLength(u)
  {
    msbPosition := -1;
    var i := 0;
    while i < 32
      invariant 0 <= i <= 32
      invariant msbPosition == if LowBits(u, i) == 0 then -1 else BitLength(LowBits(u, i))
    {
      LowBitsStep(u, i);
      if Bit(u, i) == 1 {
        msbPosition := i + 1;
      }
      i := i + 1;
    }
    LowBitsBounds(u, 32);
  }

  /** A set bit i makes the low i + 1 bits non-zero with bit length i + 1;
      a clear one leaves them as the low i bits. */
  lemma LowBitsStep(u: nat, i: nat)
    ensures Bit(u, i) == 1 ==> LowBits(u, i + 1) != 0 && BitLength(LowBits(u, i + 1)) == i + 1
    ensures Bit(u, i) == 0 ==> LowBits(u, i + 1) == LowBits(u, i)
  {
    if Bit(u, i) == 1 {
      LowBitsBounds(u, i);
      BitLengthOfRange(LowBits(u, i + 1), i + 1);
    }
  }

  /** Exponents 2^i of the squarings selected by the set bits i < k of u, in
      increasing order of i. */
  function ActiveExps(u: nat, k: nat): (es: seq<nat>)
    ensures |es| == CountBits(u, k)
    ensures AllPositive(es)
  {
    CountBitsStep(u, if k == 0 then 0 else k - 1);
    if k == 0 then [] else ActiveExps(u, k - 1) + (if Bit(u, k - 1) == 1 then [Pow2(k - 1)] else [])
  }

  /** The selected powers of two add up to the low k bits of u. */
  lemma {:induction false} ActiveExpsSum(u: nat, k: nat)
    ensures SumNat(ActiveExps(u, k)) == LowBits(u, k)
  {
    if k > 0 {
      var j := k - 1;
      var es := ActiveExps(u, j);
      ActiveExpsSum(u, j);
      assert j + 1 == k;
      if Bit(u, j) == 1 {
        var es' := es + [Pow2(j)];
        assert ActiveExps(u, k) == es';
        assert es'[..|es'| - 1] == es;
        assert SumNat(es') == SumNat(es) + Pow2(j);
      } else {
        assert ActiveExps(u, k) == es;
      }
    }
  }

  /** The selected squarings of u >= 1 add up to u. */
  lemma SelectedSum(u: nat)
    requires 1 <= u
    ensures SumNat(ActiveExps(u, BitLength(u))) == u
  {
    ActiveExpsSum(u, BitLength(u));
    BitLengthBounds(u);
    LowBitsBounds(u, BitLength(u));
  }

  /** The grouping of evalMatSqMul: for each set bit i of c, from bit 0 up to
      bit 31, the last 2^i remaining exponents are taken from the back of the
      list and their sum is recorded. */
  function GroupSums(rest: seq<nat>, c: nat, i: nat): seq<nat>
    decreases 32 - i
  {
    if i >= 32 then []
    else if Bit(c, i) == 0 then GroupSums(rest, c, i + 1)
    else
      var take := if Pow2(i) <= |rest| then Pow2(i) else |rest|;
      [SumNat(rest[|rest| - take..])] + GroupSums(rest[..|rest| - take], c, i + 1)
  }

  /** The grouping loop never runs short: with c - (c mod 2^i) exponents left
      at bit i, it consumes them all, one group per remaining set bit. */
  lemma GroupSumsPartition(rest: seq<nat>, c: nat, i: nat)
    requires c < Pow2(32) && i <= 32
    requires |rest| == c - LowBits(c, i)
    requires AllPositive(rest)
    ensures SumNat(GroupSums(rest, c, i)) == SumNat(rest)
    ensures |GroupSums(rest, c, i)| == CountBits(c, 32) - CountBits(c, i)
    ensures AllPositive(GroupSums(rest, c, i))
  {
    GroupSumsSum(rest, c, i);
    GroupSumsCount(rest, c, i);
    GroupSumsPositive(rest, c, i);
  }

  lemma {:induction false} GroupSumsSum(rest: seq<nat>, c: nat, i: nat)
    requires c < Pow2(32) && i <= 32
    requires |rest| == c - LowBits(c, i)
    ensures SumNat(GroupSums(rest, c, i)) == SumNat(rest)
    decreases 32 - i
  {
    if i == 32 {
      LowBitsBounds(c, 32);
    } else if Bit(c, i) == 1 {
      assert Pow2(i) <= |rest| && |rest| - Pow2(i) == c - LowBits(c, i + 1) by {
        RemainingAfterGroup(c, i);
      }
      var k := |rest| - Pow2(i);
      assert GroupSums(rest, c, i) == [SumNat(rest[k..])] + GroupSums(rest[..k], c, i + 1) by {
        GroupSumsTake(rest, c, i);
      }
      GroupSumsSum(rest[..k], c, i + 1);
      SumNatSplit(rest, k);
      SumNatCons(SumNat(rest[k..]), GroupSums(rest[..k], c, i + 1));
    } else {
      GroupSumsSum(rest, c, i + 1);
    }
  }

  lemma {:induction false} GroupSumsCount(rest: seq<nat>, c: nat, i: nat)
    requires c < Pow2(32) && i <= 32
    requires |rest| == c - LowBits(c, i)
    ensures |GroupSums(rest, c, i)| == CountBits(c, 32) - CountBits(c, i)
    decreases 32 - i
  {
    if i < 32 {
      CountBitsStep(c, i);
      if Bit(c, i) == 1 {
        assert Pow2(i) <= |rest| && |rest| - Pow2(i) == c - LowBits(c, i + 1) by {
          RemainingAfterGroup(c, i);
        }
        var k := |rest| - Pow2(i);
        assert GroupSums(rest, c, i) == [SumNat(rest[k..])] + GroupSums(rest[..k], c, i + 1) by {
          GroupSumsTake(rest, c, i);
        }
        GroupSumsCount(rest[..k], c, i + 1);
      } else {
        GroupSumsCount(rest, c, i + 1);
      }
    }
  }

  lemma {:induction false} GroupSumsPositive(rest: seq<nat>, c: nat, i: nat)
    requires c < Pow2(32) && i <= 32
    requires |rest| == c - LowBits(c, i)
    requires AllPositive(rest)
    ensures AllPositive(GroupSums(rest, c, i))
    decreases 32 - i
  {
    if i < 32 {
      if Bit(c, i) == 1 {
        assert Pow2(i) <= |rest| && |rest| - Pow2(i) == c - LowBits(c, i + 1) by {
          RemainingAfterGroup(c, i);
        }
        var k := |rest| - Pow2(i);
        var head, tail := rest[..k], rest[k..];
        assert AllPositive(head) && AllPositive(tail) by {
          SplitPositive(rest, k);
        }
        assert GroupSums(rest, c, i) == [SumNat(tail)] + GroupSums(head, c, i + 1) by {
          GroupSumsTake(rest, c, i);
        }
        GroupSumsPositive(head, c, i + 1);
        SumNatPositive(tail);
        PrependGroup(SumNat(tail), GroupSums(head, c, i + 1));
      } else {
        GroupSumsPositive(rest, c, i + 1);
      }
    }
  }

  /** A set bit i takes 2^i exponents, leaving c - (c mod 2^(i+1)). */
  lemma RemainingAfterGroup(c: nat, i: nat)
    requires Bit(c, i) == 1
    ensures c - LowBits(c, i) >= Pow2(i)
    ensures c - LowBits(c, i) - Pow2(i) == c - LowBits(c, i + 1)
  {
    LowBitsBounds(c, i + 1);
  }

  lemma GroupSumsTake(rest: seq<nat>, c: nat, i: nat)
    requires i < 32 && Bit(c, i) == 1 && Pow2(i) <= |rest|
    ensures GroupSums(rest, c, i)
         == [SumNat(rest[|rest| - Pow2(i)..])] + GroupSums(rest[..|rest| - Pow2(i)], c, i + 1)
  {
  }

  /** Both parts of a list of positive numbers are positive. */
  lemma SplitPositive(es: seq<nat>, k: nat)
    requires k <= |es| && AllPositive(es)
    ensures AllPositive(es[..k]) && AllPositive(es[k..])
  {
  }

  /** Prepending a positive group keeps the groups positive and adds to the sum. */
  lemma PrependGroup(g: nat, gs: seq<nat>)
    requires g >= 1 && AllPositive(gs)
    ensures AllPositive([g] + gs)
  {
  }

  /** The exponents of the group products of evalMatSqMul for exponent u: they
      add up to u, each is positive, and there is one per set bit of the
      number of selected squarings. */
  function Groups(u: nat): (ts: seq<nat>)
    requires 1 <= u < Pow2(32)
    ensures SumNat(ts) == u
    ensures |ts| == CountBits(CountBits(u, 32), 32) && |ts| >= 1
    ensures AllPositive(ts)
  {
    var es := ActiveExps(u, BitLength(u));
    GroupsFacts(u);
    GroupSums(es, |es|, 0)
  }

  lemma GroupsFacts(u: nat)
    requires 1 <= u < Pow2(32)
    ensures var es := ActiveExps(u, BitLength(u));
            var ts := GroupSums(es, |es|, 0);
            SumNat(ts) == u && |ts| == CountBits(CountBits(u, 32), 32) && |ts| >= 1
            && AllPositive(ts)
  {
    var L := BitLength(u);
    BitLengthBounds(u);
    if L > 32 {
      Pow2Monotone(32, L - 1);
    }
    CountBitsHigh(u, L, 32);
    CountBitsZero(u, 32);
    var es := ActiveExps(u, L);
    var c := |es|;
    CountBitsAtMost(u, L);
    Pow2Of32();
    GroupSumsPartition(es, c, 0);
    SelectedSum(u);
    CountBitsZero(c, 32);
  }

  // ---------------------------------------------------------------------------
  // evalMatSqMul: the final fold
  // ---------------------------------------------------------------------------

  /** Iterations of the final fold of evalMatSqMul over g remaining groups:
      its bound `i < size` shrinks by one as each iteration pops. */
  function FoldSteps(g: nat): (k: nat)
    ensures 2 * k == g || 2 * k == g + 1
  {
    if g <= 1 then g else FoldSteps(g - 2) + 1
  }

  /** The exponent the final fold of evalMatSqMul produces from the group
      exponents: the last group times only the last FoldSteps of the others. */
  function FoldAsWritten(ts: seq<nat>): nat {
    if |ts| == 0 then 0
    else ts[|ts| - 1] + SumNat(ts[|ts| - 1 - FoldSteps(|ts| - 1)..|ts| - 1])
  }

  /** The fold keeps every group exactly when there are at most two of them. */
  lemma FoldAsWrittenExact(ts: seq<nat>)
    requires |ts| >= 1 && AllPositive(ts)
    ensures FoldAsWritten(ts) >= 1
    ensures FoldAsWritten(ts) == SumNat(ts) <==> |ts| <= 2
  {
    var k := |ts| - 1 - FoldSteps(|ts| - 1);
    FoldDrops(ts);
    if |ts| > 2 {
      assert 1 <= k;
      PrefixPositive(ts, k);
    } else {
      assert k == 0 && ts[..k] == [];
    }
  }

  /** The fold leaves out exactly the first |ts| - 1 - FoldSteps(|ts| - 1) groups. */
  lemma FoldDrops(ts: seq<nat>)
    requires |ts| >= 1 && AllPositive(ts)
    ensures FoldAsWritten(ts) >= 1
    ensures SumNat(ts) == FoldAsWritten(ts) + SumNat(ts[..|ts| - 1 - FoldSteps(|ts| - 1)])
  {
    assert ts[|ts| - 1] >= 1;
    SumNatCut(ts, |ts| - 1 - FoldSteps(|ts| - 1));
  }

  /** Cutting a list at k < |ts| splits its sum into the prefix, the middle
      up to the last element, and the last element. */
  lemma SumNatCut(ts: seq<nat>, k: nat)
    requires k < |ts|
    ensures SumNat(ts) == SumNat(ts[..k]) + SumNat(ts[k..|ts| - 1]) + ts[|ts| - 1]
  {
    var init := ts[..|ts| - 1];
    assert SumNat(ts) == SumNat(init) + ts[|ts| - 1];
    SumNatSplit(init, k);
    assert init[..k] == ts[..k];
    assert init[k..] == ts[k..|ts| - 1];
  }

  /** A non-empty prefix of positive numbers has a positive sum. */
  lemma PrefixPositive(ts: seq<nat>, k: nat)
    requires 1 <= k <= |ts| && AllPositive(ts)
    ensures SumNat(ts[..k]) >= 1
  {
    assert AllPositive(ts[..k]);
    SumNatPositive(ts[..k]);
  }

  /** The exponent evalMatSqMul actually applies for exponent u. */
  function FoldedExponent(u: nat): (e: nat)
    requires 1 <= u < Pow2(32)
    ensures e >= 1
    ensures e == u <==> CountBits(CountBits(u, 32), 32) <= 2
  {
    FoldAsWrittenExact(Groups(u));
    FoldAsWritten(Groups(u))
  }

  /** Below 127 the number of selected squarings has at most two set bits, so
      evalMatSqMul is exact. */
  lemma MatSqMulExactBelow127(u: nat)
    requires 2 <= u < 127
    ensures FoldedExponent(u) == u
  {
    Pow2Of32();
    assert Pow2(7) == 128;
    CountBitsBelowAllOnes(u, 7);
    CountBitsHigh(u, 7, 32);
    var c := CountBits(u, 32);
    assert Pow2(3) == 8;
    CountBitsHigh(c, 3, 32);
    FewSetBits(c);
  }

  /** Every count from 0 to 6 has at most two set bits. */
  lemma FewSetBits(c: nat)
    requires c <= 6
    ensures CountBits(c, 3) <= 2
  {
    if c == 0 {
    } else if c == 1 {
    } else if c == 2 {
    } else if c == 3 {
    } else if c == 4 {
    } else if c == 5 {
    } else {
      assert c == 6;
    }
  }

  lemma GroupSumsNoBits(rest: seq<nat>, c: nat, i: nat)
    requires c < Pow2(i)
    ensures GroupSums(rest, c, i) == []
    decreases 32 - i
  {
    if i < 32 {
      BitAboveIsZero(c, i, i);
      Pow2Monotone(i, i + 1);
      GroupSumsNoBits(rest, c, i + 1);
    }
  }

  /** At exponent 127 the groups are 64, 48 and 15, and the fold drops the 64. */
  lemma MatSqMulAt127(u: nat)
    requires u == 127
    ensures u < Pow2(32) && Groups(u) == [64, 48, 15]
    ensures FoldedExponent(u) == 63
  {
    GroupsAt127(u);
    FoldOfThree(Groups(u));
  }

  /** With three groups the fold keeps the last two only. */
  lemma FoldOfThree(ts: seq<nat>)
    requires |ts| == 3
    ensures FoldAsWritten(ts) == ts[2] + ts[1]
  {
    assert FoldSteps(2) == 1;
    assert FoldAsWritten(ts) == ts[2] + SumNat(ts[1..2]);
    SumNatOne(ts[1..2]);
  }

  lemma GroupsAt127(u: nat)
    requires u == 127
    ensures u < Pow2(32) && Groups(u) == [64, 48, 15]
  {
    Pow2Of32();
    assert BitLength(u) == 7;
    ActiveExpsAt127(u);
    var es := ActiveExps(u, 7);
    GroupSumsAt127(es, |es|);
  }

  /** The grouping of the seven selected squarings of 127. */
  lemma GroupSumsAt127(es: seq<nat>, c: nat)
    requires es == [1, 2, 4, 8, 16, 32, 64] && c == 7
    ensures GroupSums(es, c, 0) == [64, 48, 15]
  {
    var es6 := es[..6];
    var es4 := es6[..4];
    FirstGroupAt127(es, c);
    SecondGroupAt127(es6, c);
    ThirdGroupAt127(es4, c);
  }

  lemma FirstGroupAt127(es: seq<nat>, c: nat)
    requires es == [1, 2, 4, 8, 16, 32, 64] && c == 7
    ensures GroupSums(es, c, 0) == [64] + GroupSums(es[..6], c, 1)
    ensures es[..6] == [1, 2, 4, 8, 16, 32]
  {
    assert Bit(c, 0) == 1;
    GroupSumsTake(es, c, 0);
    assert es[6..] == [es[6]];
    SumNatOne(es[6..]);
  }

  lemma SecondGroupAt127(es: seq<nat>, c: nat)
    requires es == [1, 2, 4, 8, 16, 32] && c == 7
    ensures GroupSums(es, c, 1) == [48] + GroupSums(es[..4], c, 2)
    ensures es[..4] == [1, 2, 4, 8]
  {
    assert Pow2(1) == 2 && Bit(c, 1) == 1;
    GroupSumsTake(es, c, 1);
    SumNatTwo(es[4..]);
  }

  lemma ThirdGroupAt127(es: seq<nat>, c: nat)
    requires es == [1, 2, 4, 8] && c == 7
    ensures GroupSums(es, c, 2) == [15]
  {
    assert Pow2(2) == 4 && Pow2(3) == 8 && Bit(c, 2) == 1;
    GroupSumsTake(es, c, 2);
    assert es[0..] == es;
    SumNatFour(es);
    GroupSumsNoBits(es[..0], c, 3);
  }

  lemma SumNatOne(s: seq<nat>)
    requires |s| == 1
    ensures SumNat(s) == s[0]
  {
    assert s[..0] == [];
  }

  lemma SumNatTwo(s: seq<nat>)
    requires |s| == 2
    ensures SumNat(s) == s[0] + s[1]
  {
    SumNatOne(s[..1]);
  }

  lemma SumNatFour(s: seq<nat>)
    requires |s| == 4
    ensures SumNat(s) == s[0] + s[1] + s[2] + s[3]
  {
    var s3 := s[..3];
    SumNatTwo(s3[..2]);
    assert SumNat(s3) == SumNat(s3[..2]) + s[2];
  }

  /** The selected squarings of 127 are 2^0 .. 2^6. */
  lemma ActiveExpsAt127(u: nat)
    requires u == 127
    ensures ActiveExps(u, 7) == [1, 2, 4, 8, 16, 32, 64]
  {
    assert Pow2(6) == 64;
    assert Bit(127, 6) == 1 && Bit(127, 5) == 1 && Bit(127, 4) == 1 && Bit(127, 3) == 1;
    assert Bit(127, 2) == 1 && Bit(127, 1) == 1 && Bit(127, 0) == 1;
    assert ActiveExps(127, 1) == [1];
    assert ActiveExps(127, 2) == [1, 2];
    assert ActiveExps(127, 3) == [1, 2, 4];
    assert ActiveExps(127, 4) == [1, 2, 4, 8];
    assert ActiveExps(127, 5) == [1, 2, 4, 8, 16];
    assert ActiveExps(127, 6) == [1, 2, 4, 8, 16, 32];
  }

  // ---------------------------------------------------------------------------
  // evalMatSqMul
  // ---------------------------------------------------------------------------

  /** Squarings, selection by the bits of u and grouping: the part of
      evalMatSqMul before its final fold.  Each group of 2^i selected
      squarings (i >= 1) is multiplied with evalMatrixMul2Pow. */
  method SquaringGroups(cc: Context, masks: seq<Ct>, encRows: seq<Ct>, u: nat, msbPosition: int)
    returns (encMatsTemp: seq<ElemMat>)
    requires IsRowEnc(cc, encRows, |encRows|) && MasksFor(cc, masks, |encRows|)
    requires 1 <= u < Pow2(32) && msbPosition == BitLength(u)
    ensures encMatsTemp == PowElems(cc, DecodeRows(encRows), Groups(u), cc.p)
  {
    var n := |encRows|;
    ghost var A := DecodeRows(encRows);
    var encMatSqs := MatSquarings(cc, masks, encRows, msbPosition);
    var encMatSqsActive := SelectSquarings(cc, A, encMatSqs, u, msbPosition);
    ghost var es := ActiveExps(u, msbPosition);
    GroupingStart(u, es);
    encMatsTemp := GroupSquarings(cc, masks, A, n, es, encMatSqsActive);
  }

  /** The grouping loop of evalMatSqMul over bits 0..31 of the number of
      selected squarings. */
  method GroupSquarings(cc: Context, masks: seq<Ct>, ghost A: Mat, n: nat, ghost es: seq<nat>,
                        encMatSqsActive: seq<ElemMat>)
    returns (encMatsTemp: seq<ElemMat>)
    requires ValidContext(cc) && IsMat(A, n, cc.p) && n <= cc.S && MasksFor(cc, masks, n)
    requires GroupingAt(es, |es|, 0, es, [])
    requires encMatSqsActive == PowElems(cc, A, es, cc.p)
    ensures AllPositive(GroupSums(es, |es|, 0))
    ensures encMatsTemp == PowElems(cc, A, GroupSums(es, |es|, 0), cc.p)
  {
    var numSqs := |encMatSqsActive|;
    var active := encMatSqsActive;
    ghost var activeExps := es;
    encMatsTemp := [];
    ghost var tempExps: seq<nat> := [];
    var i := 0;
    assert GroupState(cc, A, es, numSqs, 0, active, encMatsTemp, activeExps, tempExps);
    while i < 32
      invariant 0 <= i <= 32
      invariant GroupState(cc, A, es, numSqs, i, active, encMatsTemp, activeExps, tempExps)
    {
      active, encMatsTemp, activeExps, tempExps :=
        GroupStep(cc, masks, A, n, es, numSqs, i, active, encMatsTemp, activeExps, tempExps);
      i := i + 1;
    }
    GroupingEnd(es, numSqs, activeExps, tempExps);
  }

  /** The state of the grouping loop of evalMatSqMul before bit i of the
      number c of selected squarings: the exponents still to group, and the
      group exponents formed so far, which with those still to come make up
      GroupSums. */
  predicate GroupingAt(es: seq<nat>, c: nat, i: nat, activeExps: seq<nat>, tempExps: seq<nat>) {
    c < Pow2(32) && i <= 32
    && |activeExps| == c - LowBits(c, i)
    && AllPositive(activeExps) && AllPositive(tempExps)
    && GroupSums(es, c, 0) == tempExps + GroupSums(activeExps, c, i)
  }

  lemma GroupingStart(u: nat, es: seq<nat>)
    requires 1 <= u < Pow2(32) && es == ActiveExps(u, BitLength(u))
    ensures GroupingAt(es, |es|, 0, es, [])
  {
    var L := BitLength(u);
    BitLengthBounds(u);
    if L > 32 {
      Pow2Monotone(32, L - 1);
    }
    CountBitsAtMost(u, L);
    Pow2Of32();
    assert [] + GroupSums(es, |es|, 0) == GroupSums(es, |es|, 0);
  }

  lemma GroupingEnd(es: seq<nat>, c: nat, activeExps: seq<nat>, tempExps: seq<nat>)
    requires GroupingAt(es, c, 32, activeExps, tempExps)
    ensures tempExps == GroupSums(es, c, 0) && AllPositive(tempExps)
  {
    LowBitsBounds(c, 32);
    assert tempExps + [] == tempExps;
  }

  /** The grouping loop's state before bit i, with the encrypted lists of
      squarings still to group and of group products formed so far. */
  predicate GroupState(cc: Context, A: Mat, es: seq<nat>, c: nat, i: nat,
                       active: seq<ElemMat>, temp: seq<ElemMat>, activeExps: seq<nat>, tempExps: seq<nat>)
  {
    GroupingAt(es, c, i, activeExps, tempExps) && cc.p >= 1
    && active == PowElems(cc, A, activeExps, cc.p)
    && temp == PowElems(cc, A, tempExps, cc.p)
  }

  /** One iteration of the grouping loop: when bit i of c is set, the last
      2^i selected squarings are popped and replaced by their product. */
  method GroupStep(cc: Context, masks: seq<Ct>, ghost A: Mat, n: nat, ghost es: seq<nat>, c: nat, i: nat,
                   encMatSqsActive: seq<ElemMat>, encMatsTemp: seq<ElemMat>,
                   ghost activeExps: seq<nat>, ghost tempExps: seq<nat>)
    returns (encMatSqsActive': seq<ElemMat>, encMatsTemp': seq<ElemMat>,
             ghost activeExps': seq<nat>, ghost tempExps': seq<nat>)
    requires ValidContext(cc) && IsMat(A, n, cc.p) && n <= cc.S && MasksFor(cc, masks, n)
    requires i < 32 && GroupState(cc, A, es, c, i, encMatSqsActive, encMatsTemp, activeExps, tempExps)
    ensures GroupState(cc, A, es, c, i + 1, encMatSqsActive', encMatsTemp', activeExps', tempExps')
  {
    if Bit(c, i) == 1 {
      encMatSqsActive', encMatsTemp', activeExps', tempExps' :=
        TakeGroup(cc, masks, A, n, es, c, i, encMatSqsActive, encMatsTemp, activeExps, tempExps);
    } else {
      GroupingSkip(es, c, i, activeExps, tempExps);
      encMatSqsActive', encMatsTemp', activeExps', tempExps' := encMatSqsActive, encMatsTemp, activeExps, tempExps;
    }
  }

  /** The grouping step for a set bit i: the last 2^i selected squarings
      are popped and their product is appended to the group products. */
  method TakeGroup(cc: Context, masks: seq<Ct>, ghost A: Mat, n: nat, ghost es: seq<nat>, c: nat, i: nat,
                   encMatSqsActive: seq<ElemMat>, encMatsTemp: seq<ElemMat>,
                   ghost activeExps: seq<nat>, ghost tempExps: seq<nat>)
    returns (encMatSqsActive': seq<ElemMat>, encMatsTemp': seq<ElemMat>,
             ghost activeExps': seq<nat>, ghost tempExps': seq<nat>)
    requires ValidContext(cc) && IsMat(A, n, cc.p) && n <= cc.S && MasksFor(cc, masks, n)
    requires i < 32 && Bit(c, i) == 1
    requires GroupState(cc, A, es, c, i, encMatSqsActive, encMatsTemp, activeExps, tempExps)
    ensures GroupState(cc, A, es, c, i + 1, encMatSqsActive', encMatsTemp', activeExps', tempExps')
  {
    assert Pow2(i) <= |activeExps| by {
      GroupingTake(es, c, i, activeExps, tempExps);
    }
    var encMatsForMult;
    ghost var forExps;
    encMatSqsActive', encMatsForMult, forExps := PopGroup(cc, A, encMatSqsActive, activeExps, Pow2(i));
    var prod := GroupProduct(cc, masks, A, n, encMatsForMult, forExps, i);
    ghost var g := SumNat(forExps);
    encMatsTemp' := encMatsTemp + [prod];
    activeExps' := activeExps[..|activeExps| - Pow2(i)];
    tempExps' := tempExps + [g];
    assert encMatsTemp' == PowElems(cc, A, tempExps', cc.p) by {
      PowElemsAppend(cc, A, tempExps, g, cc.p);
    }
    assert GroupingAt(es, c, i + 1, activeExps', tempExps') by {
      GroupingAdvance(es, c, i, activeExps, tempExps, g);
    }
  }

  /** A set bit finds enough exponents left for its group. */
  lemma GroupingTake(es: seq<nat>, c: nat, i: nat, activeExps: seq<nat>, tempExps: seq<nat>)
    requires i < 32 && GroupingAt(es, c, i, activeExps, tempExps) && Bit(c, i) == 1
    ensures Pow2(i) <= |activeExps|
  {
    RemainingAfterGroup(c, i);
  }

  /** Recording the sum of the last 2^i exponents moves the loop to bit i + 1. */
  lemma GroupingAdvance(es: seq<nat>, c: nat, i: nat, activeExps: seq<nat>, tempExps: seq<nat>, g: nat)
    requires i < 32 && GroupingAt(es, c, i, activeExps, tempExps) && Bit(c, i) == 1
    requires Pow2(i) <= |activeExps| && g == SumNat(activeExps[|activeExps| - Pow2(i)..]) && g >= 1
    ensures GroupingAt(es, c, i + 1, activeExps[..|activeExps| - Pow2(i)], tempExps + [g])
  {
    var rest := activeExps[..|activeExps| - Pow2(i)];
    assert |rest| == c - LowBits(c, i + 1) by {
      RemainingAfterGroup(c, i);
    }
    assert AllPositive(rest) && AllPositive(tempExps + [g]) by {
      PositiveParts(activeExps, |activeExps| - Pow2(i), tempExps, g);
    }
    assert GroupSums(es, c, 0) == (tempExps + [g]) + GroupSums(rest, c, i + 1) by {
      GroupSumsTake(activeExps, c, i);
      AppendAssoc(tempExps, [g], GroupSums(rest, c, i + 1));
    }
  }

  /** Positivity survives cutting one list and extending another. */
  lemma PositiveParts(es: seq<nat>, k: nat, ts: seq<nat>, g: nat)
    requires k <= |es| && AllPositive(es) && AllPositive(ts) && g >= 1
    ensures AllPositive(es[..k]) && AllPositive(ts + [g])
  {
  }

  lemma AppendAssoc(a: seq<nat>, b: seq<nat>, c: seq<nat>)
    ensures a + (b + c) == (a + b) + c
  {
  }

  /** A clear bit changes nothing but the bit position. */
  lemma GroupingSkip(es: seq<nat>, c: nat, i: nat, activeExps: seq<nat>, tempExps: seq<nat>)
    requires i < 32 && GroupingAt(es, c, i, activeExps, tempExps) && Bit(c, i) == 0
    ensures GroupingAt(es, c, i + 1, activeExps, tempExps)
  {
  }

  /** The selection loop of evalMatSqMul: squaring i is kept when bit i of u
      is set, for i below the bit length. */
  method SelectSquarings(cc: Context, ghost A: Mat, encMatSqs: seq<ElemMat>, u: nat, msbPosition: nat)
    returns (encMatSqsActive: seq<ElemMat>)
    requires ValidContext(cc) && encMatSqs == Squarings(cc, A, msbPosition + 1)
    ensures encMatSqsActive == PowElems(cc, A, ActiveExps(u, msbPosition), cc.p)
  {
    encMatSqsActive := [];
    ghost var activeExps: seq<nat> := [];
    var i := 0;
    while i < msbPosition
      invariant 0 <= i <= msbPosition && activeExps == ActiveExps(u, i)
      invariant encMatSqsActive == PowElems(cc, A, activeExps, cc.p)
    {
      if Bit(u, i) == 1 {
        PowElemsAppend(cc, A, activeExps, Pow2(i), cc.p);
        encMatSqsActive := encMatSqsActive + [encMatSqs[i]];
        activeExps := activeExps + [Pow2(i)];
      } else {
        assert activeExps + [] == activeExps;
      }
      i := i + 1;
    }
  }

  /** The inner loop of the grouping: the last count selected squarings are
      popped from the back into the group's container.  The group's exponents
      forExps are those of the popped squarings, in popping order. */
  method PopGroup(cc: Context, ghost A: Mat, encMatSqsActive: seq<ElemMat>, ghost activeExps: seq<nat>, count: nat)
    returns (rest: seq<ElemMat>, encMatsForMult: seq<ElemMat>, ghost forExps: seq<nat>)
    requires ValidContext(cc) && AllPositive(activeExps) && count <= |activeExps|
    requires encMatSqsActive == PowElems(cc, A, activeExps, cc.p)
    ensures AllPositive(activeExps[..|activeExps| - count])
    ensures rest == PowElems(cc, A, activeExps[..|activeExps| - count], cc.p)
    ensures |forExps| == count && AllPositive(forExps)
    ensures encMatsForMult == PowElems(cc, A, forExps, cc.p)
    ensures SumNat(forExps) == SumNat(activeExps[|activeExps| - count..])
  {
    rest := encMatSqsActive;
    ghost var restExps := activeExps;
    encMatsForMult := [];
    forExps := [];
    var j := 0;
    while j < count
      invariant 0 <= j <= count && |restExps| == |activeExps| - j
      invariant restExps == activeExps[..|restExps|] && AllPositive(restExps)
      invariant rest == PowElems(cc, A, restExps, cc.p)
      invariant |forExps| == j && AllPositive(forExps)
      invariant encMatsForMult == PowElems(cc, A, forExps, cc.p)
      invariant SumNat(forExps) == SumNat(activeExps[|restExps|..])
    {
      var m := |rest| - 1;
      PowElemsAppend(cc, A, forExps, restExps[m], cc.p);
      PowElemsPrefix(cc, A, restExps, m, cc.p);
      assert activeExps[m..] == [restExps[m]] + activeExps[m + 1..];
      SumNatCons(restExps[m], activeExps[m + 1..]);
      encMatsForMult := encMatsForMult + [rest[m]];
      forExps := forExps + [restExps[m]];
      rest := rest[..m];
      restExps := restExps[..m];
      j := j + 1;
    }
  }

  /** The product of one group: a single squaring is taken as it is, and
      2^i >= 2 of them are multiplied with evalMatrixMul2Pow. */
  method GroupProduct(cc: Context, masks: seq<Ct>, ghost A: Mat, n: nat, encMatsForMult: seq<ElemMat>,
                      ghost forExps: seq<nat>, i: nat)
    returns (prod: ElemMat)
    requires ValidContext(cc) && IsMat(A, n, cc.p) && n <= cc.S && MasksFor(cc, masks, n)
    requires i < 32 && |forExps| == Pow2(i) && AllPositive(forExps)
    requires encMatsForMult == PowElems(cc, A, forExps, cc.p)
    ensures SumNat(forExps) >= 1 && prod == ElemEnc(cc, MatPow(A, SumNat(forExps), cc.p))
  {
    SumNatPositive(forExps);
    if i == 0 {
      assert forExps == [forExps[0]];
      SumNatOne(forExps);
      prod := encMatsForMult[0];
    } else {
      PowElemsDecode(cc, A, forExps, n);
      PowerCountAccepted(i);
      var res := MatrixMul2Pow(cc, masks, encMatsForMult);
      ChainOfPowers(A, forExps, cc.p);
      prod := res.value;
    }
  }

  /** The state of the final fold of evalMatSqMul: of the groups other than
      the last, the first |temp| are still waiting, and the result so far is
      A raised to the last group plus all groups already folded in. */
  predicate FoldState(cc: Context, A: Mat, n: nat, last: nat, rest: seq<nat>, res: ElemMat, temp: seq<ElemMat>) {
    ValidContext(cc) && IsMat(A, n, cc.p) && n <= cc.S
    && last >= 1 && AllPositive(rest) && |temp| <= |rest|
    && temp == PowElems(cc, A, rest[..|temp|], cc.p)
    && res == ElemEnc(cc, MatPow(A, last + SumNat(rest[|temp|..]), cc.p))
  }

  /** One pass of the final fold: the last waiting group product is popped
      and multiplied into the result with evalMatrixMul2Pow. */
  method FoldStep(cc: Context, masks: seq<Ct>, ghost A: Mat, n: nat, ghost last: nat, ghost rest: seq<nat>,
                  encMatRes: ElemMat, encMatsTemp: seq<ElemMat>)
    returns (encMatRes': ElemMat, encMatsTemp': seq<ElemMat>)
    requires FoldState(cc, A, n, last, rest, encMatRes, encMatsTemp) && |encMatsTemp| >= 1
    requires MasksFor(cc, masks, n)
    ensures FoldState(cc, A, n, last, rest, encMatRes', encMatsTemp')
    ensures encMatsTemp' == encMatsTemp[..|encMatsTemp| - 1]
  {
    var m := |encMatsTemp| - 1;
    var encMatsForMult := [encMatRes, encMatsTemp[m]];
    FoldPair(cc, A, n, last, rest, encMatRes, encMatsTemp);
    var prod := MatrixMul2Pow(cc, masks, encMatsForMult);
    encMatRes' := prod.value;
    encMatsTemp' := encMatsTemp[..m];
    FoldAdvance(cc, A, n, last, rest, encMatRes, encMatsTemp, encMatRes');
  }

  /** The pair the fold multiplies is accepted by evalMatrixMul2Pow and
      multiplies out to A^(last + the waiting exponents from the popped one on). */
  lemma FoldPair(cc: Context, A: Mat, n: nat, last: nat, rest: seq<nat>, res: ElemMat, temp: seq<ElemMat>)
    requires FoldState(cc, A, n, last, rest, res, temp) && |temp| >= 1
    ensures var pair := [res, temp[|temp| - 1]];
            ElemEncs(cc, pair, n) && |res| == n && Mul2PowAccepts(2) && 2 < Pow2(32)
            && ChainProduct(DecodeAll(pair), cc.p) == MatPow(A, last + SumNat(rest[|temp| - 1..]), cc.p)
  {
    var m := |temp| - 1;
    var a := last + SumNat(rest[m + 1..]);
    var b := rest[m];
    var e := last + SumNat(rest[m..]);
    assert e == a + b by {
      SumNatFrom(rest, m);
    }
    assert b >= 1 && res == ElemEnc(cc, MatPow(A, a, cc.p))
        && temp[m] == ElemEnc(cc, MatPow(A, b, cc.p));
    PairOfPowers(cc, A, n, a, b, e, [res, temp[m]]);
  }

  /** The sum from position m on is element m plus the sum after it. */
  lemma SumNatFrom(es: seq<nat>, m: nat)
    requires m < |es|
    ensures SumNat(es[m..]) == es[m] + SumNat(es[m + 1..])
  {
    assert es[m..] == [es[m]] + es[m + 1..];
    SumNatCons(es[m], es[m + 1..]);
  }

  /** Folding the popped product in moves the fold state one group down. */
  lemma FoldAdvance(cc: Context, A: Mat, n: nat, last: nat, rest: seq<nat>, res: ElemMat, temp: seq<ElemMat>,
                    prod: ElemMat)
    requires FoldState(cc, A, n, last, rest, res, temp) && |temp| >= 1
    requires prod == ElemEnc(cc, MatPow(A, last + SumNat(rest[|temp| - 1..]), cc.p))
    ensures FoldState(cc, A, n, last, rest, prod, temp[..|temp| - 1])
  {
    var m := |temp| - 1;
    PowElemsPrefix(cc, A, rest[..m + 1], m, cc.p);
    assert rest[..m + 1][..m] == rest[..m];
  }

  /** Two encrypted powers of A, as a pair, multiply to the power with the
      summed exponent. */
  lemma PairOfPowers(cc: Context, A: Mat, n: nat, a: nat, b: nat, e: nat, pair: seq<ElemMat>)
    requires ValidContext(cc) && IsMat(A, n, cc.p) && n <= cc.S && a >= 1 && b >= 1 && e == a + b
    requires pair == [ElemEnc(cc, MatPow(A, a, cc.p)), ElemEnc(cc, MatPow(A, b, cc.p))]
    ensures ElemEncs(cc, pair, n) && Mul2PowAccepts(|pair|) && |pair| < Pow2(32)
    ensures ChainProduct(DecodeAll(pair), cc.p) == MatPow(A, e, cc.p)
  {
    var Pa, Pb := MatPow(A, a, cc.p), MatPow(A, b, cc.p);
    ElemEncRoundTrip(cc, Pa, n);
    ElemEncRoundTrip(cc, Pb, n);
    assert DecodeAll(pair) == [Pa, Pb];
    PowerCountAccepted(1);
    PowPairProduct(A, a, b, e, cc.p);
  }

  /** The chain of A^a and A^b multiplies out to A^(a + b). */
  lemma PowPairProduct(A: Mat, a: nat, b: nat, e: nat, p: nat)
    requires p >= 1 && a >= 1 && b >= 1 && e == a + b
    ensures ChainProduct([MatPow(A, a, p), MatPow(A, b, p)], p) == MatPow(A, e, p)
  {
    ChainOfTwo(MatPow(A, a, p), MatPow(A, b, p), p);
    MatPowAdd(A, a, b, p);
  }

  /** The fold starts from the last group, with every other group waiting. */
  lemma FoldStart(cc: Context, A: Mat, n: nat, ts: seq<nat>)
    requires ValidContext(cc) && IsMat(A, n, cc.p) && n <= cc.S && |ts| >= 1 && AllPositive(ts)
    ensures FoldState(cc, A, n, ts[|ts| - 1], ts[..|ts| - 1],
                      PowElems(cc, A, ts, cc.p)[|ts| - 1], PowElems(cc, A, ts, cc.p)[..|ts| - 1])
  {
    var g := |ts| - 1;
    var rest := ts[..g];
    assert rest[g..] == [];
    assert rest[..g] == rest;
  }

  /** A fold that leaves no group waiting has multiplied all of them. */
  lemma FoldEnd(cc: Context, A: Mat, n: nat, ts: seq<nat>, res: ElemMat)
    requires |ts| >= 1 && FoldState(cc, A, n, ts[|ts| - 1], ts[..|ts| - 1], res, [])
    ensures res == ElemEnc(cc, MatPow(A, SumNat(ts), cc.p))
  {
    var rest := ts[..|ts| - 1];
    assert rest[0..] == rest;
    assert SumNat(ts) == SumNat(rest) + ts[|ts| - 1];
  }

  /** The fold as written stops with FoldSteps groups folded in. */
  lemma FoldEndAsWritten(cc: Context, A: Mat, n: nat, ts: seq<nat>, res: ElemMat, temp: seq<ElemMat>)
    requires |ts| >= 1 && FoldState(cc, A, n, ts[|ts| - 1], ts[..|ts| - 1], res, temp)
    requires |temp| == |ts| - 1 - FoldSteps(|ts| - 1)
    ensures res == ElemEnc(cc, MatPow(A, FoldAsWritten(ts), cc.p))
  {
    assert ts[..|ts| - 1][|temp|..] == ts[|temp|..|ts| - 1];
  }

  /** evalMatSqMul as written.  An exponent whose low 32 bits are below 2
      aborts (None); otherwise the result is A raised to FoldedExponent, which
      equals the exponent only while the fold sees at most two groups. */
  method MatSqMul(cc: Context, masks: seq<Ct>, encRows: seq<Ct>, exponent: int) returns (r: Option<ElemMat>)
    requires IsInt32(exponent)
    requires IsRowEnc(cc, encRows, |encRows|) && MasksFor(cc, masks, |encRows|)
    ensures r.Some? <==> Low32(exponent) >= 2
    ensures r.Some? ==> r.value == ElemEnc(cc, MatPow(DecodeRows(encRows), FoldedExponent(Low32(exponent)), cc.p))
  {
    ghost var A := DecodeRows(encRows);
    var n := |encRows|;
    var u := Low32(exponent);
    var msbPosition := MsbScan(u);
    if u >= 1 {
      BitLengthBounds(u);
    }
    if msbPosition <= 1 {
      return None;
    }
    var encMatsTemp := SquaringGroups(cc, masks, encRows, u, msbPosition);
    ghost var ts := Groups(u);
    var g := |encMatsTemp| - 1;
    FoldStart(cc, A, n, ts);
    var encMatRes := encMatsTemp[g];
    encMatsTemp := encMatsTemp[..g];
    ghost var rest := ts[..g];
    if |encMatsTemp| == 0 {
      FoldEndAsWritten(cc, A, n, ts, encMatRes, encMatsTemp);
      return Some(encMatRes);
    }
    var i := 0;
    while i < |encMatsTemp|
      invariant 0 <= i && |encMatsTemp| + i == g && 2 * i <= g + 1
      invariant FoldState(cc, A, n, ts[g], rest, encMatRes, encMatsTemp)
      decreases |encMatsTemp| - i
    {
      encMatRes, encMatsTemp := FoldStep(cc, masks, A, n, ts[g], rest, encMatRes, encMatsTemp);
      i := i + 1;
    }
    FoldEndAsWritten(cc, A, n, ts, encMatRes, encMatsTemp);
    r := Some(encMatRes);
  }

  /** evalMatSqMul with the final fold running until the group list is empty,
      as the routine intends: the result is A^u for every u >= 2. */
  method MatSqMulFixed(cc: Context, masks: seq<Ct>, encRows: seq<Ct>, exponent: int) returns (r: Option<ElemMat>)
    requires IsInt32(exponent)
    requires IsRowEnc(cc, encRows, |encRows|) && MasksFor(cc, masks, |encRows|)
    ensures r.Some? <==> Low32(exponent) >= 2
    ensures r.Some? ==> r.value == ElemEnc(cc, MatPow(DecodeRows(encRows), Low32(exponent), cc.p))
  {
    ghost var A := DecodeRows(encRows);
    var n := |encRows|;
    var u := Low32(exponent);
    var msbPosition := MsbScan(u);
    if u >= 1 {
      BitLengthBounds(u);
    }
    if msbPosition <= 1 {
      return None;
    }
    var encMatsTemp := SquaringGroups(cc, masks, encRows, u, msbPosition);
    ghost var ts := Groups(u);
    var g := |encMatsTemp| - 1;
    FoldStart(cc, A, n, ts);
    var encMatRes := encMatsTemp[g];
    encMatsTemp := encMatsTemp[..g];
    ghost var rest := ts[..g];
    while |encMatsTemp| > 0
      invariant FoldState(cc, A, n, ts[g], rest, encMatRes, encMatsTemp)
    {
      encMatRes, encMatsTemp := FoldStep(cc, masks, A, n, ts[g], rest, encMatRes, encMatsTemp);
    }
    FoldEnd(cc, A, n, ts, encMatRes);
    r := Some(encMatRes);
  }

  // ---------------------------------------------------------------------------
  // A matrix that tells A^63 from A^127
  // ---------------------------------------------------------------------------

  /** The shear [[1, 1], [0, 1]]. */
  function Shear(): Mat {
    [[1, 1], [0, 1]]
  }

  /** Powers of the shear: [[1, k], [0, 1]] modulo p. */
  lemma {:induction false} ShearPow(k: nat, p: nat)
    requires k >= 1 && p >= 2
    ensures MatPow(Shear(), k, p) == [[1, k % p], [0, 1]]
  {
    ModOfSmall(1, p);
    ModOfSmall(0, p);
    if k > 1 {
      ShearPow(k - 1, p);
      var P := [[1, (k - 1) % p], [0, 1]];
      var C := MatMul(P, Shear(), p);
      ShearEntry(P, 0, 0);
      ShearEntry(P, 0, 1);
      ShearEntry(P, 1, 0);
      ShearEntry(P, 1, 1);
      ModAddLeft(k - 1, 1, p);
      assert C[0] == [1, k % p];
      assert C[1] == [0, 1];
    }
  }

  /** An entry of a 2 x 2 product with the shear. */
  lemma ShearEntry(P: Mat, i: int, j: int)
    ensures Sum(2, Terms(P, Shear(), i, j)) == At(P, i, 0) * At(Shear(), 0, j) + At(P, i, 1) * At(Shear(), 1, j)
  {
  }

  /** Modulo 65537 the fold's A^63 differs from A^127 already for the shear,
      so exponent 127 gives a wrong result. */
  lemma MatSqMulDropsAFactor(u: nat)
    requires u == 127
    ensures u < Pow2(32) && FoldedExponent(u) == 63
    ensures MatPow(Shear(), FoldedExponent(u), 65537) != MatPow(Shear(), u, 65537)
  {
    MatSqMulAt127(u);
    ShearPow(63, 65537);
    ShearPow(127, 65537);
    ModOfSmall(63, 65537);
    ModOfSmall(127, 65537);
    ShearCorner(MatPow(Shear(), 63, 65537), MatPow(Shear(), 127, 65537), 63, 127);
  }

  lemma ShearCorner(P: Mat, Q: Mat, a: int, b: int)
    requires P == [[1, a], [0, 1]] && Q == [[1, b], [0, 1]] && a != b
    ensures P != Q
  {
    assert P[0][1] != Q[0][1];
  }
}
