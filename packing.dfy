/** Encodings of an n x n matrix into ciphertexts and the conversions between
    them: row-wise (ciphertext r holds row r in slots 0..n-1), column-wise
    (ciphertext c holds column c), and element-wise (one ciphertext per entry,
    holding it in slot 0).  Also the inner-product style matrix-vector and
    vector-matrix products. */
module Packing {
  import opened ModArith
  import opened Slots
  import opened Matrices

  /** An element-wise encrypted matrix. */
  type ElemMat = seq<seq<Ct>>

  /** Row r of M, cut to n entries. */
  function Row(M: Mat, r: int, n: nat): (v: seq<int>)
    ensures |v| == n
  {
    seq(n, c => At(M, r, c))
  }

  /** Row-wise encryption: ciphertext r holds row r, zero-padded. */
  function RowEnc(cc: Context, M: Mat): (R: seq<Ct>)
    requires ValidContext(cc) && |M| <= cc.S
    ensures |R| == |M|
  {
    seq(|M|, r => Pack(cc, Row(M, r, |M|)))
  }

  /** Column-wise encryption: the row-wise encryption of the transpose. */
  function ColEnc(cc: Context, M: Mat): (C: seq<Ct>)
    requires ValidContext(cc) && |M| <= cc.S
    ensures |C| == |M|
  {
    RowEnc(cc, Transpose(M))
  }

  /** Element-wise encryption: entry (r, c) alone in slot 0 of its ciphertext. */
  function ElemEnc(cc: Context, M: Mat): (E: ElemMat)
    ensures |E| == |M|
  {
    seq(|M|, r => seq(|M|, c => Unit(cc, 0, At(M, r, c))))
  }

  /** The matrix that a list of row ciphertexts decrypts to. */
  function DecodeRows(R: seq<Ct>): (M: Mat)
    ensures |M| == |R|
  {
    seq(|R|, r => seq(|R|, c => SlotOf(R, r, c)))
  }

  /** Slot 0 of element ciphertext (r, c), zero outside the grid. */
  function ElemAt(E: ElemMat, r: int, c: int): int {
    if 0 <= r < |E| && 0 <= c < |E[r]| then Slot(E[r][c], 0) else 0
  }

  /** The matrix that an element-wise encryption decrypts to. */
  function DecodeElems(E: ElemMat): (M: Mat)
    ensures |M| == |E|
  {
    seq(|E|, r => seq(|E|, c => ElemAt(E, r, c)))
  }

  /** R is the row-wise encryption of an n x n residue matrix. */
  predicate IsRowEnc(cc: Context, R: seq<Ct>, n: nat) {
    ValidContext(cc) && |R| == n && n <= cc.S
    && IsMat(DecodeRows(R), n, cc.p) && R == RowEnc(cc, DecodeRows(R))
  }

  /** E is the element-wise encryption of an n x n residue matrix. */
  predicate IsElemEnc(cc: Context, E: ElemMat, n: nat) {
    ValidContext(cc) && |E| == n && n <= cc.S
    && IsMat(DecodeElems(E), n, cc.p) && E == ElemEnc(cc, DecodeElems(E))
  }

  /** The first n masks isolate slots 0..n-1. */
  predicate MasksFor(cc: Context, masks: seq<Ct>, n: nat) {
    |masks| >= n && forall e :: 0 <= e < n ==> masks[e] == Unit(cc, e, 1)
  }

  // ---------------------------------------------------------------------------
  // Encodings round-trip
  // ---------------------------------------------------------------------------

  /** Decrypting a row-wise encryption gives the matrix back. */
  lemma RowEncRoundTrip(cc: Context, M: Mat, n: nat)
    requires ValidContext(cc) && IsMat(M, n, cc.p) && n <= cc.S
    ensures DecodeRows(RowEnc(cc, M)) == M
    ensures IsRowEnc(cc, RowEnc(cc, M), n)
  {
    var R := RowEnc(cc, M);
    forall r | 0 <= r < n
      ensures DecodeRows(R)[r] == M[r]
    {
      forall c | 0 <= c < n
        ensures DecodeRows(R)[r][c] == M[r][c]
      {
        ModOfSmall(M[r][c], cc.p);
      }
    }
  }

  /** Decrypting an element-wise encryption gives the matrix back. */
  lemma ElemEncRoundTrip(cc: Context, M: Mat, n: nat)
    requires ValidContext(cc) && IsMat(M, n, cc.p) && n <= cc.S
    ensures DecodeElems(ElemEnc(cc, M)) == M
    ensures IsElemEnc(cc, ElemEnc(cc, M), n)
  {
    var E := ElemEnc(cc, M);
    forall r | 0 <= r < n
      ensures DecodeElems(E)[r] == M[r]
    {
    }
  }

  /** A well-formed row ciphertext holds its decoded entries in slots 0..n-1. */
  lemma RowEncSlots(cc: Context, R: seq<Ct>, n: nat, r: int)
    requires IsRowEnc(cc, R, n) && 0 <= r < n
    ensures IsCt(cc, R[r])
    ensures forall c :: 0 <= c < n ==> R[r][c] == At(DecodeRows(R), r, c)
  {
  }

  /** A well-formed element ciphertext is the unit at slot 0 of its entry. */
  lemma ElemEncEntry(cc: Context, E: ElemMat, n: nat, r: int, c: int)
    requires IsElemEnc(cc, E, n) && 0 <= r < n && 0 <= c < n
    ensures E[r][c] == Unit(cc, 0, At(DecodeElems(E), r, c))
    ensures 0 <= At(DecodeElems(E), r, c) < cc.p
  {
  }

  // ---------------------------------------------------------------------------
  // Conversions
  // ---------------------------------------------------------------------------

  /** The parts of column c: entry (r, c) placed at slot r, for r < k. */
  function ColumnParts(cc: Context, M: Mat, c: int, k: nat): (parts: seq<Ct>)
    ensures |parts| == k
  {
    seq(k, r => Unit(cc, r, At(M, r, c)))
  }

  /** Adding up the n parts of column c gives the encryption of column c. */
  lemma ColumnPartsSum(cc: Context, M: Mat, n: nat, c: int)
    requires ValidContext(cc) && IsMat(M, n, cc.p) && n <= cc.S && 0 <= c < n
    ensures AddMany(cc, ColumnParts(cc, M, c, n)) == ColEnc(cc, M)[c]
  {
    var col := Row(Transpose(M), c, n);
    AddManyUnits(cc, ColumnParts(cc, M, c, n), col);
  }

  /** The parts of row r: entry (r, c) placed at slot c, for c < k. */
  function RowParts(cc: Context, M: Mat, r: int, k: nat): (parts: seq<Ct>)
    ensures |parts| == k
  {
    seq(k, c => Unit(cc, c, At(M, r, c)))
  }

  lemma RowPartsSum(cc: Context, M: Mat, n: nat, r: int)
    requires ValidContext(cc) && IsMat(M, n, cc.p) && n <= cc.S && 0 <= r < n
    ensures AddMany(cc, RowParts(cc, M, r, n)) == RowEnc(cc, M)[r]
  {
    AddManyUnits(cc, RowParts(cc, M, r, n), Row(M, r, n));
  }

  /** Masking row r with mask e and rotating by e - r moves entry (r, e) to slot r. */
  lemma MaskAndShift(cc: Context, R: seq<Ct>, n: nat, r: int, e: int)
    requires IsRowEnc(cc, R, n) && 0 <= r < n && 0 <= e < n
    ensures Rotate(cc, Mult(cc, R[r], Unit(cc, e, 1)), e - r) == Unit(cc, r, At(DecodeRows(R), r, e))
  {
    RowEncSlots(cc, R, n, r);
    MultByMask(cc, R[r], e);
    RotateUnit(cc, e, r, R[r][e]);
  }

  /** rowToColEnc: from the row-wise to the column-wise encryption.  Each
      entry is isolated with one mask multiplication, moved to its row's slot
      and collected in its column's container; each container is then summed. */
  method RowToColEnc(cc: Context, masks: seq<Ct>, encRows: seq<Ct>) returns (encCols: seq<Ct>)
    requires IsRowEnc(cc, encRows, |encRows|) && MasksFor(cc, masks, |encRows|)
    ensures encCols == ColEnc(cc, DecodeRows(encRows))
  {
    var n := |encRows|;
    ghost var M := DecodeRows(encRows);
    var container: seq<seq<Ct>> := [];
    var row := 0;
    while row < n
      invariant 0 <= row <= n
      invariant |container| == if row == 0 then 0 else n
      invariant forall c :: 0 <= c < |container| ==> container[c] == ColumnParts(cc, M, c, row)
    {
      var elem := 0;
      while elem < n
        invariant 0 <= elem <= n
        invariant |container| == if row == 0 then elem else n
        invariant forall c :: 0 <= c < |container| ==>
                    container[c] == ColumnParts(cc, M, c, if c < elem then row + 1 else row)
      {
        var mask := masks;
        var maskedRow := Mult(cc, encRows[row], mask[elem]);
        var encElem := Rotate(cc, maskedRow, elem - row);
        MaskAndShift(cc, encRows, n, row, elem);
        if row == 0 {
          container := container + [[encElem]];
        } else {
          container := container[elem := container[elem] + [encElem]];
        }
        assert container[elem] == ColumnParts(cc, M, elem, row + 1);
        elem := elem + 1;
      }
      row := row + 1;
    }
    encCols := [];
    var col := 0;
    while col < n
      invariant 0 <= col <= n
      invariant encCols == ColEnc(cc, M)[..col]
    {
      ColumnPartsSum(cc, M, n, col);
      encCols := encCols + [AddMany(cc, container[col])];
      col := col + 1;
    }
  }

  /** encElem2Rows: element-wise to row-wise; each entry is rotated from slot 0
      to its column's slot and the row's entries are summed. */
  method EncElem2Rows(cc: Context, encMatElems: ElemMat) returns (encMatRows: seq<Ct>)
    requires IsElemEnc(cc, encMatElems, |encMatElems|)
    ensures encMatRows == RowEnc(cc, DecodeElems(encMatElems))
  {
    var n := |encMatElems|;
    ghost var M := DecodeElems(encMatElems);
    encMatRows := [];
    var row := 0;
    while row < n
      invariant 0 <= row <= n
      invariant encMatRows == RowEnc(cc, M)[..row]
    {
      var encRowContainer: seq<Ct> := [];
      var col := 0;
      while col < n
        invariant 0 <= col <= n
        invariant encRowContainer == RowParts(cc, M, row, col)
      {
        var encElem := encMatElems[row][col];
        ElemEncEntry(cc, encMatElems, n, row, col);
        RotateUnit(cc, 0, col, At(M, row, col));
        encRowContainer := encRowContainer + [Rotate(cc, encElem, -col)];
        col := col + 1;
      }
      RowPartsSum(cc, M, n, row);
      encMatRows := encMatRows + [AddMany(cc, encRowContainer)];
      row := row + 1;
    }
  }

  /** encElem2Cols: element-wise to column-wise; each entry is rotated from
      slot 0 to its row's slot and the column's entries are summed. */
  method EncElem2Cols(cc: Context, encMatElems: ElemMat) returns (encMatCols: seq<Ct>)
    requires IsElemEnc(cc, encMatElems, |encMatElems|)
    ensures encMatCols == ColEnc(cc, DecodeElems(encMatElems))
  {
    var n := |encMatElems|;
    ghost var M := DecodeElems(encMatElems);
    encMatCols := [];
    var col := 0;
    while col < n
      invariant 0 <= col <= n
      invariant encMatCols == ColEnc(cc, M)[..col]
    {
      var encColContainer: seq<Ct> := [];
      var row := 0;
      while row < n
        invariant 0 <= row <= n
        invariant encColContainer == ColumnParts(cc, M, col, row)
      {
        var encElem := encMatElems[row][col];
        ElemEncEntry(cc, encMatElems, n, row, col);
        RotateUnit(cc, 0, row, At(M, row, col));
        encColContainer := encColContainer + [Rotate(cc, encElem, -row)];
        row := row + 1;
      }
      ColumnPartsSum(cc, M, n, col);
      encMatCols := encMatCols + [AddMany(cc, encColContainer)];
      col := col + 1;
    }
  }

  // ---------------------------------------------------------------------------
  // Inner-product style products
  // ---------------------------------------------------------------------------

  /** The isolate-and-place idiom: an inner product masked to slot 0 and
      rotated to slot pos. */
  lemma InnerProductAt(cc: Context, a: Ct, b: Ct, w: nat, pos: int)
    requires ValidContext(cc) && w <= cc.S && 0 <= pos < cc.S
    ensures Rotate(cc, Mult(cc, InnerProduct(cc, a, b, w), Unit(cc, 0, 1)), -pos)
         == Unit(cc, pos, Dot(a, b, w) % cc.p)
  {
    MaskedInnerProduct(cc, a, b, w);
    RotateUnit(cc, 0, pos, Dot(a, b, w) % cc.p);
  }

  /** Row r of a row-wise encryption dotted with v is entry r of M * v. */
  lemma RowDot(cc: Context, R: seq<Ct>, n: nat, v: Ct, r: int)
    requires IsRowEnc(cc, R, n) && 0 <= r < n
    ensures Dot(R[r], v, n) % cc.p == MatVec(DecodeRows(R), v, cc.p)[r]
  {
    var M := DecodeRows(R);
    SumExt(n, j => Slot(R[r], j) * Slot(v, j), t => At(M, r, t) * VAt(v, t));
  }

  /** evalMatrixVecMult: slot r of the result is (M * v)[r] for r < n, and
      every other slot is zero. */
  method MatrixVecMult(cc: Context, masks: seq<Ct>, encRows: seq<Ct>, encVec: Ct) returns (c: Ct)
    requires IsRowEnc(cc, encRows, |encRows|) && MasksFor(cc, masks, |encRows|)
    ensures c == Pack(cc, MatVec(DecodeRows(encRows), encVec, cc.p))
  {
    var n := |encRows|;
    ghost var w := MatVec(DecodeRows(encRows), encVec, cc.p);
    var encElements: seq<Ct> := [];
    var row := 0;
    while row < n
      invariant 0 <= row <= n && |encElements| == row
      invariant forall k :: 0 <= k < row ==> encElements[k] == Unit(cc, k, w[k])
    {
      var encElement := InnerProduct(cc, encRows[row], encVec, n);
      var encElementMasked := Mult(cc, encElement, masks[0]);
      InnerProductAt(cc, encRows[row], encVec, n, row);
      RowDot(cc, encRows, n, encVec, row);
      encElement := Rotate(cc, encElementMasked, -row);
      encElements := encElements + [encElement];
      row := row + 1;
    }
    assert forall k :: 0 <= k < n ==> 0 <= w[k] < cc.p;
    AddManyUnits(cc, encElements, w);
    c := AddMany(cc, encElements);
  }

  /** Column r of M, read from its column-wise encryption, dotted with v is
      entry r of v * M. */
  lemma ColDot(cc: Context, C: seq<Ct>, M: Mat, n: nat, v: Ct, r: int)
    requires ValidContext(cc) && IsMat(M, n, cc.p) && n <= cc.S && C == ColEnc(cc, M) && 0 <= r < n
    ensures Dot(C[r], v, n) % cc.p == VecMat(v, M, cc.p)[r]
  {
    TransposeIsMat(M, n, cc.p);
    RowEncRoundTrip(cc, Transpose(M), n);
    RowDot(cc, C, n, v, r);
    VecMatTranspose(v, M, n, cc.p);
  }

  /** evalVecMatrixMult: slot c of the result is (v * M)[c] for c < n, and
      every other slot is zero.  The column-wise encryption is rebuilt in
      every iteration, as the routine does. */
  method VecMatrixMult(cc: Context, masks: seq<Ct>, encVec: Ct, encRows: seq<Ct>) returns (c: Ct)
    requires IsRowEnc(cc, encRows, |encRows|) && MasksFor(cc, masks, |encRows|)
    ensures c == Pack(cc, VecMat(encVec, DecodeRows(encRows), cc.p))
  {
    var n := |encRows|;
    ghost var M := DecodeRows(encRows);
    ghost var w := VecMat(encVec, M, cc.p);
    var encElements: seq<Ct> := [];
    var row := 0;
    while row < n
      invariant 0 <= row <= n && |encElements| == row
      invariant forall k :: 0 <= k < row ==> encElements[k] == Unit(cc, k, w[k])
    {
      var encCols := RowToColEnc(cc, masks, encRows);
      var encElement := InnerProduct(cc, encCols[row], encVec, n);
      var encElementMasked := Mult(cc, encElement, masks[0]);
      InnerProductAt(cc, encCols[row], encVec, n, row);
      ColDot(cc, encCols, M, n, encVec, row);
      encElement := Rotate(cc, encElementMasked, -row);
      encElements := encElements + [encElement];
      row := row + 1;
    }
    assert forall k :: 0 <= k < n ==> 0 <= w[k] < cc.p;
    AddManyUnits(cc, encElements, w);
    c := AddMany(cc, encElements);
  }
}
