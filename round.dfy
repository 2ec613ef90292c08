/** One round of the encrypted top-trading-cycle mechanism run by `main`:
    every user points at their most-preferred available item, the items on
    trading cycles are found from the n-th power of the pointer matrix, and
    the output and availability vectors are updated.  Users and items are
    both numbered 0..n-1; user i owns item i. */
module Round {
  import opened Wrappers
  import opened ModArith
  import opened Slots
  import opened CryptoUtilities
  import opened Matrices
  import opened Packing
  import opened MatPower
  import opened Predicates

  // ---------------------------------------------------------------------------
  // Pointer matrices
  // ---------------------------------------------------------------------------

  /** Every entry of f names a position below n, or is -1 for "none". */
  predicate IsPointers(f: seq<int>, n: nat) {
    |f| == n && forall i :: 0 <= i < n ==> -1 <= f[i] < n
  }

  /** A preference list: position j holds the item ranked j-th. */
  predicate IsRanking(pref: seq<int>, n: nat) {
    |pref| == n && forall j :: 0 <= j < n ==> 0 <= pref[j] < n
  }

  /** Row i is the unit vector at f[i], or zero when f[i] is -1. */
  function PointerMatrix(f: seq<int>): (M: Mat)
    ensures |M| == |f|
  {
    seq(|f|, i requires 0 <= i < |f| => OneHot(|f|, f[i]))
  }

  /** Entry f[j], or -1 when j is past the end. */
  function Choice(f: seq<int>, j: int): int {
    if 0 <= j < |f| then f[j] else -1
  }

  /** Entry i is v[f[i]], or 0 when f[i] points nowhere. */
  function Gather(f: seq<int>, v: seq<int>): (g: seq<int>)
    ensures |g| == |f|
  {
    seq(|f|, i requires 0 <= i < |f| => if 0 <= f[i] < |v| then v[f[i]] else 0)
  }

  /** Rows of 0/1 entries, each with at most one 1. */
  predicate AtMostOneOnePerRow(M: Mat, n: nat) {
    |M| == n && (forall j :: 0 <= j < n ==> |M[j]| == n && IsBits(M[j]))
    && forall j, k1, k2 :: 0 <= j < n && 0 <= k1 < n && 0 <= k2 < n && M[j][k1] == 1 && M[j][k2] == 1 ==> k1 == k2
  }

  lemma PointerMatrixIsMat(f: seq<int>, n: nat, p: nat)
    requires IsPointers(f, n) && p >= 2
    ensures IsMat(PointerMatrix(f), n, p) && IsMat(Transpose(PointerMatrix(f)), n, p)
    ensures AtMostOneOnePerRow(PointerMatrix(f), n)
  {
    TransposeIsMat(PointerMatrix(f), n, p);
  }

  /** The preference matrices of a user, the way `main` writes them: the
      matrix cell by cell, and its transpose by scanning each row for its 1. */
  method PreferenceMatrix(pref: seq<int>) returns (M: Mat)
    requires IsRanking(pref, |pref|)
    ensures M == PointerMatrix(pref)
  {
    var n := |pref|;
    M := [];
    var j := 0;
    while j < n
      invariant 0 <= j <= n && M == PointerMatrix(pref)[..j]
    {
      var row := Constant(n, 0);
      row := row[pref[j] := 1];
      assert row == OneHot(n, pref[j]);
      M := M + [row];
      j := j + 1;
    }
  }

  method TransposeByScan(M: Mat) returns (T: Mat)
    requires AtMostOneOnePerRow(M, |M|)
    ensures T == Transpose(M)
  {
    var n := |M|;
    T := [];
    var j := 0;
    while j < n
      invariant 0 <= j <= n && T == seq(j, _ => Constant(n, 0))
    {
      T := T + [Constant(n, 0)];
      j := j + 1;
    }
    j := 0;
    while j < n
      invariant 0 <= j <= n && |T| == n
      invariant forall k :: 0 <= k < n ==> |T[k]| == n
      invariant forall k, i :: 0 <= k < n && 0 <= i < n ==> T[k][i] == if i < j then M[i][k] else 0
    {
      ghost var T0 := T;
      var k := 0;
      while k < n
        invariant 0 <= k <= n && T == T0
        invariant forall k' :: 0 <= k' < k ==> M[j][k'] != 1
      {
        if M[j][k] == 1 {
          T := T[k := T[k][j := 1]];
          break;
        }
        k := k + 1;
      }
      j := j + 1;
    }
    forall k | 0 <= k < n
      ensures T[k] == Transpose(M)[k]
    {
      assert forall i :: 0 <= i < n ==> T[k][i] == At(M, i, k);
    }
  }

  // ---------------------------------------------------------------------------
  // Adjacency rows
  // ---------------------------------------------------------------------------

  /** The user's most-preferred available item, or -1 when none is left. */
  function TopChoice(pref: seq<int>, avail: seq<int>): int {
    Choice(pref, FirstOne(Gather(pref, avail)))
  }

  /** TopChoice is available, and every item ranked above it is not; -1 means
      that no ranked item is available. */
  lemma TopChoiceIsBest(pref: seq<int>, avail: seq<int>, n: nat)
    requires IsRanking(pref, n) && |avail| == n
    ensures var c := TopChoice(pref, avail);
      (c == -1 <==> forall j :: 0 <= j < n ==> avail[pref[j]] != 1)
      && (c != -1 ==> exists j :: 0 <= j < n && c == pref[j] && avail[c] == 1
                        && forall j' :: 0 <= j' < j ==> avail[pref[j']] != 1)
  {
    var g := Gather(pref, avail);
    var k := FirstOne(g);
    if k < n {
      assert g[k] == avail[pref[k]];
      assert forall j' :: 0 <= j' < k ==> avail[pref[j']] != 1 by {
        forall j' | 0 <= j' < k
          ensures avail[pref[j']] != 1
        {
          assert g[j'] == avail[pref[j']];
        }
      }
    } else {
      forall j | 0 <= j < n
        ensures avail[pref[j]] != 1
      {
        assert g[j] == avail[pref[j]];
      }
    }
  }

  /** Multiplying a pointer matrix by v gathers v along the pointers. */
  lemma PointerMatVec(f: seq<int>, v: seq<int>, n: nat, p: nat)
    requires IsPointers(f, n) && p >= 1 && |v| >= n
    requires forall t :: 0 <= t < n ==> 0 <= v[t] < p
    ensures MatVec(PointerMatrix(f), v, p) == Gather(f, v[..n])
  {
    var M := PointerMatrix(f);
    forall i | 0 <= i < n
      ensures MatVec(M, v, p)[i] == Gather(f, v[..n])[i]
    {
      var terms := t => At(M, i, t) * VAt(v, t);
      if f[i] == -1 {
        SumZero(n, terms);
        assert Sum(n, terms) % p == 0;
      } else {
        SumSingle(n, terms, f[i]);
        ModOfSmall(v[f[i]], p);
      }
    }
  }

  /** Multiplying the transpose of a pointer matrix by a vector whose first n
      entries are the unit vector at j picks row j: the unit vector at f[j],
      or zero when j is out of range. */
  lemma TransposeSelects(f: seq<int>, j: int, v: seq<int>, n: nat, p: nat)
    requires IsPointers(f, n) && p >= 2 && 0 <= j <= n && |v| >= n && v[..n] == OneHot(n, j)
    ensures MatVec(Transpose(PointerMatrix(f)), v, p) == OneHot(n, Choice(f, j))
  {
    var T := Transpose(PointerMatrix(f));
    forall i | 0 <= i < n
      ensures MatVec(T, v, p)[i] == OneHot(n, Choice(f, j))[i]
    {
      var terms := t => At(T, i, t) * VAt(v, t);
      assert forall t :: 0 <= t < n ==> VAt(v, t) == v[..n][t];
      if j == n {
        SumZero(n, terms);
        assert Sum(n, terms) % p == 0;
      } else {
        SumSingle(n, terms, j);
        assert terms(j) == OneHot(n, f[j])[i];
        ModOfSmall(terms(j), p);
      }
    }
  }

  /** The packed availability, multiplied by the preference matrix, is the
      availability in preference order, still 0/1. */
  lemma AvailableRanked(cc: Context, pref: seq<int>, avail: seq<int>, n: nat)
    requires ValidContext(cc) && n <= cc.S && IsRanking(pref, n) && |avail| == n && IsBits(avail)
    ensures MatVec(PointerMatrix(pref), Pack(cc, avail), cc.p) == Gather(pref, avail)
    ensures IsBits(Gather(pref, avail))
  {
    var x := Pack(cc, avail);
    assert x[..n] == avail by {
      forall l | 0 <= l < n
        ensures x[l] == avail[l]
      {
        ModOfSmall(avail[l], cc.p);
      }
    }
    PointerMatVec(pref, x, n, cc.p);
  }

  /** The keep-first-one step on the packed 0/1 vector v leaves the unit
      vector at its first 1, packed. */
  lemma FirstOneSlots(cc: Context, n: nat, v: seq<int>, x: Ct, c: Ct)
    requires ValidContext(cc) && n < cc.S && |v| == n && IsBits(v) && x == Pack(cc, v) && IsCt(cc, c)
    requires c[..n] == LeadOne(x[..n], cc.p)
    requires c[n] == (x[n] * Prod(Complement(x[..n], cc.p), 0, n, cc.p)) % cc.p
    requires forall l :: n < l < cc.S ==> c[l] == 0
    ensures c == Pack(cc, OneHot(n, FirstOne(v)))
  {
    var p := cc.p;
    var e := OneHot(n, FirstOne(v));
    var target := Pack(cc, e);
    assert x[..n] == v by {
      forall l | 0 <= l < n
        ensures x[l] == v[l]
      {
        ModOfSmall(v[l], p);
      }
    }
    assert c[..n] == e by {
      LeadOneIsFirstOne(v, p);
    }
    assert c[n] == 0 by {
      assert x[n] == 0;
      assert x[n] * Prod(Complement(x[..n], p), 0, n, p) == 0;
      ModOfSmall(0, p);
    }
    forall l | 0 <= l < cc.S
      ensures c[l] == target[l]
    {
      if l < n {
        assert c[l] == c[..n][l] == e[l];
        ModOfSmall(e[l], p);
      }
    }
  }

  /** The row-wise encryptions of a pointer matrix and of its transpose are
      well formed and decrypt to those matrices. */
  lemma PointerEncodings(cc: Context, f: seq<int>, n: nat)
    requires ValidContext(cc) && IsPointers(f, n) && n <= cc.S
    ensures IsRowEnc(cc, RowEnc(cc, PointerMatrix(f)), n)
    ensures DecodeRows(RowEnc(cc, PointerMatrix(f))) == PointerMatrix(f)
    ensures IsRowEnc(cc, RowEnc(cc, Transpose(PointerMatrix(f))), n)
    ensures DecodeRows(RowEnc(cc, Transpose(PointerMatrix(f)))) == Transpose(PointerMatrix(f))
  {
    PointerMatrixIsMat(f, n, cc.p);
    RowEncRoundTrip(cc, PointerMatrix(f), n);
    RowEncRoundTrip(cc, Transpose(PointerMatrix(f)), n);
  }

  /** One adjacency row (main.cpp, the loop over users in the online phase):
      availability in preference order, keep the first available, map back to
      items.  The row is the unit vector at the user's top available item, or
      zero when no item is available. */
  method AdjacencyRow(cc: Context, masks: seq<Ct>, lead: InitPreserveLeadOne, ghost pref: seq<int>,
                      encPref: seq<Ct>, encPrefT: seq<Ct>, ghost avail: seq<int>, encAvail: Ct)
    returns (row: Ct)
    requires lead.Valid() && lead.cc == cc && lead.slots == |pref| && lead.slots < cc.S
    requires PrefixRoom(cc, lead.slots) && MasksFor(cc, masks, |pref|)
    requires IsRanking(pref, |pref|)
    requires encPref == RowEnc(cc, PointerMatrix(pref)) && encPrefT == RowEnc(cc, Transpose(PointerMatrix(pref)))
    requires |avail| == |pref| && IsBits(avail) && encAvail == Pack(cc, avail)
    ensures row == Pack(cc, OneHot(|pref|, TopChoice(pref, avail)))
  {
    var n := |pref|;
    ghost var ranked := Gather(pref, avail);
    PointerEncodings(cc, pref, n);
    var encUserAvailablePref := MatrixVecMult(cc, masks, encPref, encAvail);
    AvailableRanked(cc, pref, avail, n);
    var encUserFirstAvailablePref := PreserveLeadOne(lead, encUserAvailablePref);
    FirstOneSlots(cc, n, ranked, encUserAvailablePref, encUserFirstAvailablePref);
    row := MatrixVecMult(cc, masks, encPrefT, encUserFirstAvailablePref);
    ghost var first := FirstOne(ranked);
    assert encUserFirstAvailablePref[..n] == OneHot(n, first) by {
      forall l | 0 <= l < n
        ensures encUserFirstAvailablePref[l] == OneHot(n, first)[l]
      {
        ModOfSmall(OneHot(n, first)[l], cc.p);
      }
    }
    TransposeSelects(pref, first, encUserFirstAvailablePref, n, cc.p);
  }

  /** All users' adjacency rows (main.cpp, the loop over users): row `user`
      points at that user's top available item. */
  method AdjacencyMatrix(cc: Context, masks: seq<Ct>, lead: InitPreserveLeadOne, ghost prefs: seq<seq<int>>,
                         encPrefs: seq<seq<Ct>>, encPrefTs: seq<seq<Ct>>, ghost avail: seq<int>, encAvail: Ct)
    returns (encRows: seq<Ct>)
    requires lead.Valid() && lead.cc == cc && lead.slots == |prefs| && lead.slots < cc.S
    requires PrefixRoom(cc, lead.slots) && MasksFor(cc, masks, |prefs|)
    requires |encPrefs| == |encPrefTs| == |prefs|
    requires forall u :: 0 <= u < |prefs| ==>
      IsRanking(prefs[u], |prefs|) && encPrefs[u] == RowEnc(cc, PointerMatrix(prefs[u]))
      && encPrefTs[u] == RowEnc(cc, Transpose(PointerMatrix(prefs[u])))
    requires |avail| == |prefs| && IsBits(avail) && encAvail == Pack(cc, avail)
    ensures IsPointers(TopChoices(prefs, avail), |prefs|)
    ensures encRows == RowEnc(cc, PointerMatrix(TopChoices(prefs, avail)))
  {
    var n := |encPrefs|;
    ghost var f := TopChoices(prefs, avail);
    TopChoicesArePointers(prefs, avail, n);
    encRows := [];
    var user := 0;
    while user < n
      invariant 0 <= user <= n && |encRows| == user
      invariant forall k :: 0 <= k < user ==> encRows[k] == Pack(cc, OneHot(n, f[k]))
    {
      var row := AdjacencyRow(cc, masks, lead, prefs[user], encPrefs[user], encPrefTs[user], avail, encAvail);
      encRows := encRows + [row];
      user := user + 1;
    }
    assert forall k :: 0 <= k < n ==> Row(PointerMatrix(f), k, n) == OneHot(n, f[k]);
  }

  /** Every user's top available item. */
  function TopChoices(prefs: seq<seq<int>>, avail: seq<int>): (f: seq<int>)
    ensures |f| == |prefs|
  {
    seq(|prefs|, u requires 0 <= u < |prefs| => TopChoice(prefs[u], avail))
  }

  lemma TopChoicesArePointers(prefs: seq<seq<int>>, avail: seq<int>, n: nat)
    requires |prefs| == n && forall u :: 0 <= u < n ==> IsRanking(prefs[u], n)
    ensures IsPointers(TopChoices(prefs, avail), n)
  {
    forall u | 0 <= u < n
      ensures -1 <= TopChoices(prefs, avail)[u] < n
    {
      var k := FirstOne(Gather(prefs[u], avail));
    }
  }

  // ---------------------------------------------------------------------------
  // Cycle indicator
  // ---------------------------------------------------------------------------

  /** Follow f, then g: -1 stays -1. */
  function Follow(f: seq<int>, g: seq<int>): (h: seq<int>)
    ensures |h| == |f|
  {
    seq(|f|, i requires 0 <= i < |f| => if 0 <= f[i] < |g| then g[f[i]] else -1)
  }

  /** Where each e-step walk along f ends, -1 when it stops early. */
  function Walk(f: seq<int>, e: nat): (h: seq<int>)
    requires e >= 1
    ensures |h| == |f|
  {
    if e == 1 then f else Follow(Walk(f, e - 1), f)
  }

  /** How many entries of h equal l. */
  function Count(h: seq<int>, l: int): (c: nat)
    ensures c <= |h|
  {
    if |h| == 0 then 0 else Count(h[..|h| - 1], l) + (if h[|h| - 1] == l then 1 else 0)
  }

  /** A walk ends at l exactly when the count at l is positive. */
  lemma {:induction false} CountPositive(h: seq<int>, l: int)
    ensures Count(h, l) > 0 <==> exists t :: 0 <= t < |h| && h[t] == l
  {
    if |h| > 0 {
      var init := h[..|h| - 1];
      CountPositive(init, l);
      if Count(init, l) > 0 {
        var t :| 0 <= t < |init| && init[t] == l;
        assert h[t] == l;
      }
      if exists t :: 0 <= t < |h| && h[t] == l {
        var t :| 0 <= t < |h| && h[t] == l;
        if t < |h| - 1 {
          assert init[t] == l;
        }
      }
    }
  }

  lemma FollowIsPointers(f: seq<int>, g: seq<int>, n: nat)
    requires IsPointers(f, n) && IsPointers(g, n)
    ensures IsPointers(Follow(f, g), n)
  {
  }

  /** The product of two pointer matrices is the pointer matrix of the
      composed pointers. */
  lemma PointerProduct(f: seq<int>, g: seq<int>, n: nat, p: nat)
    requires IsPointers(f, n) && IsPointers(g, n) && p >= 2
    ensures MatMul(PointerMatrix(f), PointerMatrix(g), p) == PointerMatrix(Follow(f, g))
  {
    var A, B := PointerMatrix(f), PointerMatrix(g);
    var C := PointerMatrix(Follow(f, g));
    forall i | 0 <= i < n
      ensures MatMul(A, B, p)[i] == C[i]
    {
      forall j | 0 <= j < n
        ensures MatMul(A, B, p)[i][j] == C[i][j]
      {
        var terms := Terms(A, B, i, j);
        if f[i] == -1 {
          SumZero(n, terms);
          assert Sum(n, terms) % p == 0;
        } else {
          SumSingle(n, terms, f[i]);
          assert terms(f[i]) == C[i][j];
          ModOfSmall(C[i][j], p);
        }
      }
    }
  }

  /** The e-th power of a pointer matrix is the pointer matrix of the e-step
      walks. */
  lemma {:induction false} PointerPower(f: seq<int>, e: nat, n: nat, p: nat)
    requires IsPointers(f, n) && p >= 2 && e >= 1
    ensures IsPointers(Walk(f, e), n)
    ensures MatPow(PointerMatrix(f), e, p) == PointerMatrix(Walk(f, e))
  {
    if e > 1 {
      PointerPower(f, e - 1, n, p);
      FollowIsPointers(Walk(f, e - 1), f, n);
      PointerProduct(Walk(f, e - 1), f, n, p);
    }
  }

  /** Terms t -> [h[t] == l] add up to the count of l among the first k. */
  lemma {:induction false} SumCounts(h: seq<int>, l: int, terms: int -> int, k: nat)
    requires k <= |h|
    requires forall t :: 0 <= t < |h| ==> terms(t) == if h[t] == l then 1 else 0
    ensures Sum(k, terms) == Count(h[..k], l)
  {
    if k > 0 {
      SumCounts(h, l, terms, k - 1);
      assert h[..k][..k - 1] == h[..k - 1];
    }
  }

  /** The all-ones row vector times a pointer matrix counts, per column l,
      the rows pointing at l. */
  lemma ColumnCounts(cc: Context, h: seq<int>, n: nat)
    requires ValidContext(cc) && IsPointers(h, n) && n <= cc.S && n < cc.p
    ensures VecMat(Pack(cc, Constant(n, 1)), PointerMatrix(h), cc.p) == seq(n, l => Count(h, l))
  {
    var ones := Pack(cc, Constant(n, 1));
    var M := PointerMatrix(h);
    ModOfSmall(1, cc.p);
    forall l | 0 <= l < n
      ensures VecMat(ones, M, cc.p)[l] == Count(h, l)
    {
      var terms := t => VAt(ones, t) * At(M, t, l);
      SumCounts(h, l, terms, n);
      assert h[..n] == h;
      ModOfSmall(Count(h, l), cc.p);
    }
  }

  /** refreshInPlace applied to each of n rows. */
  method RefreshRows(cc: Context, rows: seq<Ct>, slots: nat) returns (refreshed: seq<Ct>)
    requires ValidContext(cc) && slots <= cc.S && forall i :: 0 <= i < |rows| ==> IsCt(cc, rows[i])
    ensures |refreshed| == |rows|
    ensures forall i :: 0 <= i < |rows| ==> refreshed[i] == Refresh(cc, rows[i], slots)
  {
    refreshed := rows;
    var row := 0;
    while row < |rows|
      invariant 0 <= row <= |rows| && |refreshed| == |rows|
      invariant forall i :: 0 <= i < row ==> refreshed[i] == Refresh(cc, rows[i], slots)
      invariant forall i :: row <= i < |rows| ==> refreshed[i] == rows[i]
    {
      refreshed := refreshed[row := Refresh(cc, refreshed[row], slots)];
      row := row + 1;
    }
  }

  /** Refreshing the row-wise encryption of an n x n matrix with n slots
      changes nothing. */
  lemma RefreshRowEnc(cc: Context, M: Mat, n: nat)
    requires ValidContext(cc) && IsMat(M, n, cc.p) && n <= cc.S
    ensures forall i :: 0 <= i < n ==> IsCt(cc, RowEnc(cc, M)[i]) && Refresh(cc, RowEnc(cc, M)[i], n) == RowEnc(cc, M)[i]
  {
    forall i | 0 <= i < n
      ensures IsCt(cc, RowEnc(cc, M)[i]) && Refresh(cc, RowEnc(cc, M)[i], n) == RowEnc(cc, M)[i]
    {
      RefreshIdentity(cc, RowEnc(cc, M)[i], n);
    }
  }

  /** The cycle indicator u (main.cpp, online part 2): raise the adjacency
      matrix to the n-th power, sum its columns, and map each sum through
      not-equal-zero with range n.  Slot l is 1 exactly when some n-step walk
      along the pointers ends at l. */
  method CycleIndicator(cc: Context, masks: seq<Ct>, nz: InitNotEqualZero, ghost f: seq<int>, encAdj: seq<Ct>)
    returns (u: Ct)
    requires ValidContext(cc) && IsPrime(cc.p) && 2 <= |f| < cc.p && |f| <= cc.S && IsInt32(|f|)
    requires IsPointers(f, |f|) && encAdj == RowEnc(cc, PointerMatrix(f)) && MasksFor(cc, masks, |f|)
    requires nz.Valid() && nz.cc == cc && nz.slots == |f| && nz.range == |f|
    ensures IsCt(cc, u)
    ensures forall l :: 0 <= l < |f| ==> u[l] == if Count(Walk(f, |f|), l) > 0 then 1 else 0
    ensures forall l :: |f| <= l < cc.S ==> u[l] == 0
  {
    var n := |encAdj|;
    ghost var h := Walk(f, n);
    PointerEncodings(cc, f, n);
    PointerPower(f, n, n, cc.p);
    PointerMatrixIsMat(h, n, cc.p);
    assert Low32(n) == n;
    var encMatrixExpElems := MatSqMulFixed(cc, masks, encAdj, n);
    ElemEncRoundTrip(cc, PointerMatrix(h), n);
    var encMatrixExp := EncElem2Rows(cc, encMatrixExpElems.value);
    ghost var R := RowEnc(cc, PointerMatrix(h));
    assert encMatrixExp == R;
    RefreshRowEnc(cc, PointerMatrix(h), n);
    encMatrixExp := RefreshRows(cc, encMatrixExp, n);
    assert encMatrixExp == R by {
      assert forall i :: 0 <= i < n ==> encMatrixExp[i] == R[i];
    }
    PointerEncodings(cc, h, n);
    var encOnes := Pack(cc, Constant(n, 1));
    var encSums := VecMatrixMult(cc, masks, encOnes, encMatrixExp);
    ColumnCounts(cc, h, n);
    var encU := NotEqualZeroFixed(nz, encSums);
    forall l | 0 <= l < n
      ensures encU[l] == if Count(h, l) > 0 then 1 else 0
    {
      ModOfSmall(Count(h, l), cc.p);
      assert encSums[l] == Count(h, l);
      NezFixedIndicator(Count(h, l), n, cc.p);
    }
    u := Refresh(cc, encU, n);
  }

  // ---------------------------------------------------------------------------
  // Output and availability update
  // ---------------------------------------------------------------------------

  /** The plaintext range vector 0, 1, ..., n - 1. */
  function Range(n: nat): (r: seq<int>)
    ensures |r| == n
  {
    seq(n, i => i)
  }

  /** The item index each user points at, 0 for a user pointing nowhere. */
  function ItemIndices(f: seq<int>): (t: seq<int>)
    ensures |t| == |f|
  {
    seq(|f|, i requires 0 <= i < |f| => if f[i] >= 0 then f[i] else 0)
  }

  /** t (main.cpp, online part 3): each adjacency row dotted with the range
      vector, masked to slot 0 and moved to the user's slot, then summed.
      These are exactly the steps of evalMatrixVecMult, so the model calls it;
      slot i of t is the item user i points at. */
  method Choices(cc: Context, masks: seq<Ct>, ghost f: seq<int>, encAdj: seq<Ct>) returns (t: Ct)
    requires ValidContext(cc) && |f| <= cc.S && |f| < cc.p
    requires IsPointers(f, |f|) && encAdj == RowEnc(cc, PointerMatrix(f)) && MasksFor(cc, masks, |f|)
    ensures t == Pack(cc, ItemIndices(f))
  {
    var n := |encAdj|;
    PointerEncodings(cc, f, n);
    var encRange := Pack(cc, Range(n));
    t := MatrixVecMult(cc, masks, encAdj, encRange);
    assert forall k :: 0 <= k < n ==> encRange[k] == k by {
      forall k | 0 <= k < n
        ensures encRange[k] == k
      {
        ModOfSmall(k, cc.p);
      }
    }
    PointerMatVec(f, encRange, n, cc.p);
    assert Gather(f, encRange[..n]) == ItemIndices(f);
  }

  /** o <- t * u + o * (1 - u), slot by slot, with 1 - u formed as
      1 + u * (p - 1): where u is 1 the output takes t, where u is 0 it keeps
      o. */
  function UpdateOutput(cc: Context, n: nat, t: Ct, u: Ct, o: Ct): (r: Ct)
    requires ValidContext(cc) && n <= cc.S && IsCt(cc, t) && IsCt(cc, u) && IsCt(cc, o)
    ensures IsCt(cc, r)
    ensures forall l :: 0 <= l < n && u[l] == 1 ==> r[l] == t[l]
    ensures forall l :: 0 <= l < n && u[l] == 0 ==> r[l] == o[l]
    ensures (forall l :: n <= l < cc.S ==> t[l] == 0) ==> forall l :: n <= l < cc.S ==> r[l] == 0
  {
    var encOnes := Pack(cc, Constant(n, 1));
    var encNegOnes := Pack(cc, Constant(n, cc.p - 1));
    var encTMultU := Mult(cc, t, u);
    var encOneMinU := Add(cc, encOnes, Mult(cc, u, encNegOnes));
    UpdateOutputSlots(cc, n, t, u, o, encOnes, encNegOnes);
    Add(cc, encTMultU, Mult(cc, o, encOneMinU))
  }

  lemma UpdateOutputSlots(cc: Context, n: nat, t: Ct, u: Ct, o: Ct, ones: Ct, negOnes: Ct)
    requires ValidContext(cc) && n <= cc.S && IsCt(cc, t) && IsCt(cc, u) && IsCt(cc, o)
    requires ones == Pack(cc, Constant(n, 1)) && negOnes == Pack(cc, Constant(n, cc.p - 1))
    ensures var r := Add(cc, Mult(cc, t, u), Mult(cc, o, Add(cc, ones, Mult(cc, u, negOnes))));
      && (forall l :: 0 <= l < n && u[l] == 1 ==> r[l] == t[l])
      && (forall l :: 0 <= l < n && u[l] == 0 ==> r[l] == o[l])
      && ((forall l :: n <= l < cc.S ==> t[l] == 0) ==> forall l :: n <= l < cc.S ==> r[l] == 0)
  {
    var r := Add(cc, Mult(cc, t, u), Mult(cc, o, Add(cc, ones, Mult(cc, u, negOnes))));
    UpdateInside(cc, n, t, u, o, ones, negOnes, r);
    if forall l :: n <= l < cc.S ==> t[l] == 0 {
      UpdateOutside(cc, n, t, u, o, ones, negOnes, r);
    }
  }

  lemma UpdateInside(cc: Context, n: nat, t: Ct, u: Ct, o: Ct, ones: Ct, negOnes: Ct, r: Ct)
    requires ValidContext(cc) && n <= cc.S && IsCt(cc, t) && IsCt(cc, u) && IsCt(cc, o)
    requires ones == Pack(cc, Constant(n, 1)) && negOnes == Pack(cc, Constant(n, cc.p - 1))
    requires r == Add(cc, Mult(cc, t, u), Mult(cc, o, Add(cc, ones, Mult(cc, u, negOnes))))
    ensures forall l :: 0 <= l < n && (u[l] == 0 || u[l] == 1) ==> r[l] == if u[l] == 1 then t[l] else o[l]
  {
    var p := cc.p;
    forall l | 0 <= l < n && (u[l] == 0 || u[l] == 1)
      ensures r[l] == if u[l] == 1 then t[l] else o[l]
    {
      assert Slot(negOnes, l) == p - 1 by { ModOfSmall(p - 1, p); }
      assert Slot(ones, l) == 1 by { ModOfSmall(1, p); }
      SelectScalar(t[l], u[l], o[l], p);
    }
  }

  lemma UpdateOutside(cc: Context, n: nat, t: Ct, u: Ct, o: Ct, ones: Ct, negOnes: Ct, r: Ct)
    requires ValidContext(cc) && n <= cc.S && IsCt(cc, t) && IsCt(cc, u) && IsCt(cc, o)
    requires ones == Pack(cc, Constant(n, 1)) && negOnes == Pack(cc, Constant(n, cc.p - 1))
    requires r == Add(cc, Mult(cc, t, u), Mult(cc, o, Add(cc, ones, Mult(cc, u, negOnes))))
    requires forall l :: n <= l < cc.S ==> t[l] == 0
    ensures forall l :: n <= l < cc.S ==> r[l] == 0
  {
    forall l | n <= l < cc.S
      ensures r[l] == 0
    {
      assert Slot(ones, l) == 0 && Slot(negOnes, l) == 0;
      SelectOutside(u[l], o[l], cc.p);
    }
  }

  /** One slot of the update inside the n users: u selects between t and o. */
  lemma SelectScalar(t: int, u: int, o: int, p: int)
    requires p >= 2 && 0 <= t < p && 0 <= o < p && (u == 0 || u == 1)
    ensures ((t * u) % p + (o * ((1 + (u * (p - 1)) % p) % p)) % p) % p == if u == 1 then t else o
  {
    ModOfSmall(0, p);
    ModOfSmall(1, p);
    if u == 1 {
      ModOfSmall(p - 1, p);
      assert (1 + (u * (p - 1)) % p) % p == 0 by { ModOfMultiple(1, p); }
      assert o * 0 == 0;
      ModOfSmall(t, p);
    } else {
      assert u * (p - 1) == 0 && t * u == 0;
      ModOfSmall(o, p);
    }
  }

  /** One slot of the update beyond the n users, where t, 1 and p - 1 are
      packed as zero. */
  lemma SelectOutside(u: int, o: int, p: int)
    requires p >= 2
    ensures ((0 * u) % p + (o * ((0 + (u * 0) % p) % p)) % p) % p == 0
  {
    assert u * 0 == 0 && 0 * u == 0;
    ModOfSmall(0, p);
    assert o * 0 == 0;
  }

  /** 1 - NotEqualZero(x), slot by slot, formed as 1 + NotEqualZero(x) * (p - 1). */
  lemma OneMinusSlots(cc: Context, n: nat, nez: Ct, ones: Ct, negOnes: Ct)
    requires ValidContext(cc) && n <= cc.S && IsCt(cc, nez)
    requires ones == Pack(cc, Constant(n, 1)) && negOnes == Pack(cc, Constant(n, cc.p - 1))
    requires forall l :: n <= l < cc.S ==> nez[l] == 0
    ensures var a := Add(cc, ones, Mult(cc, nez, negOnes));
      && (forall l :: 0 <= l < n ==> a[l] == (1 - nez[l]) % cc.p)
      && (forall l :: n <= l < cc.S ==> a[l] == 0)
  {
    var p := cc.p;
    var m := Mult(cc, nez, negOnes);
    var a := Add(cc, ones, m);
    ModOfSmall(0, p);
    ModOfSmall(1, p);
    ModOfSmall(p - 1, p);
    forall l | 0 <= l < n
      ensures a[l] == (1 - nez[l]) % p
    {
      assert Slot(ones, l) == 1 && Slot(negOnes, l) == p - 1;
      NegateMod(nez[l], p);
      assert m[l] == (p - nez[l]) % p by {
        assert (nez[l] * (p - 1)) == (p - 1) * nez[l];
      }
      ModAdd(1, p - nez[l], p);
      ModOfSmall(1, p);
      ModMod(p - nez[l], p);
      ModAddMultiple(1, 1 - nez[l], p);
      assert 1 * p + (1 - nez[l]) == 1 + (p - nez[l]);
    }
    forall l | n <= l < cc.S
      ensures a[l] == 0
    {
      assert Slot(ones, l) == 0;
      assert m[l] == (0 * Slot(negOnes, l)) % p == 0;
    }
  }

  /** The availability update as written: 1 - NotEqualZero(o) with range r. */
  method AvailabilityAsWritten(nz: InitNotEqualZero, o: Ct) returns (a: Ct)
    requires nz.Valid() && IsCt(nz.cc, o) && nz.range >= 1
    ensures IsCt(nz.cc, a)
    ensures forall l :: 0 <= l < nz.slots ==> a[l] == (1 - NezAsWritten(o[l], nz.range, nz.cc.p)) % nz.cc.p
    ensures forall l :: nz.slots <= l < nz.cc.S ==> a[l] == 0
  {
    var cc := nz.cc;
    var encOutputReduced := NotEqualZero(nz, o);
    var encOnes := Pack(cc, Constant(nz.slots, 1));
    var encNegOnes := Pack(cc, Constant(nz.slots, cc.p - 1));
    OneMinusSlots(cc, nz.slots, encOutputReduced, encOnes, encNegOnes);
    a := Add(cc, encOnes, Mult(cc, encOutputReduced, encNegOnes));
  }

  /** The availability update with not-equal-zero applied to o + 1, which
      maps the sentinel p - 1 to 0 and the item indices 0..r-1 into 1..r. */
  method AvailabilityFixed(nz: InitNotEqualZero, o: Ct) returns (a: Ct)
    requires nz.Valid() && IsCt(nz.cc, o) && nz.range >= 1
    ensures IsCt(nz.cc, a)
    ensures forall l :: 0 <= l < nz.slots ==> a[l] == (1 - NezFixed((o[l] + 1) % nz.cc.p, nz.range, nz.cc.p)) % nz.cc.p
    ensures forall l :: nz.slots <= l < nz.cc.S ==> a[l] == 0
  {
    var cc := nz.cc;
    var encShifted := Add(cc, o, nz.encOne);
    assert forall l :: 0 <= l < nz.slots ==> encShifted[l] == (o[l] + 1) % cc.p by {
      ModOfSmall(1, cc.p);
    }
    var encOutputReduced := NotEqualZeroFixed(nz, encShifted);
    var encOnes := Pack(cc, Constant(nz.slots, 1));
    var encNegOnes := Pack(cc, Constant(nz.slots, cc.p - 1));
    OneMinusSlots(cc, nz.slots, encOutputReduced, encOnes, encNegOnes);
    a := Add(cc, encOnes, Mult(cc, encOutputReduced, encNegOnes));
  }

  /** As written, a user still unassigned (output p - 1) gets availability
      r + 1 for an odd range r, and a user assigned item 0 stays available. */
  lemma AvailabilityAsWrittenValues(r: nat, p: nat)
    requires IsPrime(p) && r % 2 == 1 && r + 1 < p
    ensures (1 - NezAsWritten(p - 1, r, p)) % p == r + 1
    ensures (1 - NezAsWritten(0, r, p)) % p == 1
    ensures forall v :: 1 <= v <= r ==> (1 - NezAsWritten(v, r, p)) % p == 0
  {
    assert (1 - NezAsWritten(p - 1, r, p)) % p == r + 1 by {
      NezAtMinusOne(r, p);
      assert 1 - (p - r) == -1 * p + (r + 1);
      ModAddMultiple(-1, r + 1, p);
      ModOfSmall(r + 1, p);
    }
    assert (1 - NezAsWritten(0, r, p)) % p == 1 by {
      NezAtZero(r, p);
      ModOfSmall(1, p);
    }
    forall v | 1 <= v <= r
      ensures (1 - NezAsWritten(v, r, p)) % p == 0
    {
      AssignedUnavailable(v, r, p);
    }
  }

  lemma AssignedUnavailable(v: int, r: nat, p: nat)
    requires p >= 2 && r % 2 == 1 && 1 <= v <= r
    ensures (1 - NezAsWritten(v, r, p)) % p == 0
  {
    NezOnRange(v, r, p);
    assert NezAsWritten(v, r, p) == 1;
    ModOfSmall(0, p);
  }

  /** With the shift, availability is 1 exactly for unassigned users. */
  lemma AvailabilityFixedValues(o: int, r: nat, p: nat)
    requires IsPrime(p) && r + 1 < p && (o == p - 1 || 0 <= o < r)
    ensures (1 - NezFixed((o + 1) % p, r, p)) % p == if o == p - 1 then 1 else 0
  {
    ModOfSmall(1, p);
    ModOfSmall(0, p);
    if o == p - 1 {
      ModOfMultiple(1, p);
      assert (o + 1) % p == 0;
      NezAtZero(r, p);
    } else {
      ModOfSmall(o + 1, p);
      NezOnRange(o + 1, r, p);
    }
  }

  // ---------------------------------------------------------------------------
  // The round
  // ---------------------------------------------------------------------------

  /** Output slots: p - 1 for a user still unassigned, otherwise the index of
      the item the user received; zero beyond the n users. */
  predicate IsOutput(cc: Context, o: Ct, n: nat) {
    IsCt(cc, o) && n <= cc.S
    && (forall l :: 0 <= l < n ==> o[l] == cc.p - 1 || 0 <= o[l] < n)
    && forall l :: n <= l < cc.S ==> o[l] == 0
  }

  /** User l's item is reached by an n-step walk along the pointers, which is
      how the round recognises the users on a trading cycle. */
  predicate OnCycle(f: seq<int>, l: int)
    requires |f| >= 1
  {
    Count(Walk(f, |f|), l) > 0
  }

  /** The availability that follows an output vector: 1 for the users still
      unassigned, 0 for the others. */
  function Unassigned(o: Ct, n: nat, p: nat): (a: seq<int>)
    requires |o| >= n
    ensures |a| == n && IsBits(a)
  {
    seq(n, l requires 0 <= l < n => if o[l] == p - 1 then 1 else 0)
  }

  /** One round of `main`'s online phase: adjacency rows from the current
      availability, refresh, cycle indicator, item indices, output update and
      availability update.  Users on a cycle receive the item they point at,
      the others keep their output, and the new availability marks the users
      still unassigned. */
  method RunRound(rm: InitRotsMasks, lead: InitPreserveLeadOne, nz: InitNotEqualZero,
                  ghost prefs: seq<seq<int>>, encPrefs: seq<seq<Ct>>, encPrefTs: seq<seq<Ct>>,
                  ghost avail: seq<int>, encAvail: Ct, encOutput: Ct)
    returns (encAvailNext: Ct, encOutputNext: Ct)
    requires rm.Valid() && lead.Valid() && nz.Valid()
    requires lead.cc == rm.cc && nz.cc == rm.cc
    requires rm.slots == |prefs| && lead.slots == |prefs| && nz.slots == |prefs| && nz.range == |prefs|
    requires IsPrime(rm.cc.p) && 2 <= |prefs| && |prefs| + 1 < rm.cc.p && |prefs| < rm.cc.S && IsInt32(|prefs|)
    requires PrefixRoom(rm.cc, |prefs|)
    requires |encPrefs| == |encPrefTs| == |prefs|
    requires forall u :: 0 <= u < |prefs| ==>
      IsRanking(prefs[u], |prefs|) && encPrefs[u] == RowEnc(rm.cc, PointerMatrix(prefs[u]))
      && encPrefTs[u] == RowEnc(rm.cc, Transpose(PointerMatrix(prefs[u])))
    requires |avail| == |prefs| && IsBits(avail) && encAvail == Pack(rm.cc, avail)
    requires IsOutput(rm.cc, encOutput, |prefs|)
    ensures IsOutput(rm.cc, encOutputNext, |prefs|)
    ensures forall l :: 0 <= l < |prefs| ==>
      encOutputNext[l] == if OnCycle(TopChoices(prefs, avail), l) then ItemIndices(TopChoices(prefs, avail))[l] else encOutput[l]
    ensures encAvailNext == Pack(rm.cc, Unassigned(encOutputNext, |prefs|, rm.cc.p))
  {
    var cc := rm.cc;
    var n := |encPrefs|;
    var masks := rm.encMasks;
    var encRowsAdjMatrix := AdjacencyMatrix(cc, masks, lead, prefs, encPrefs, encPrefTs, avail, encAvail);
    ghost var f := TopChoices(prefs, avail);
    ghost var R := RowEnc(cc, PointerMatrix(f));
    PointerMatrixIsMat(f, n, cc.p);
    RefreshRowEnc(cc, PointerMatrix(f), n);
    encRowsAdjMatrix := RefreshRows(cc, encRowsAdjMatrix, n);
    assert encRowsAdjMatrix == R by {
      assert forall i :: 0 <= i < n ==> encRowsAdjMatrix[i] == R[i];
    }
    var encU := CycleIndicator(cc, masks, nz, f, encRowsAdjMatrix);
    var encT := Choices(cc, masks, f, encRowsAdjMatrix);
    ChoicesAreItems(cc, f, n, encT);
    encAvailNext, encOutputNext := UpdateState(nz, encT, encU, encOutput);
  }

  /** The output and availability updates of the round (main.cpp, end of
      online part 3): where u is 1 the output takes t, elsewhere it is kept,
      and the availability marks the users left unassigned. */
  method UpdateState(nz: InitNotEqualZero, encT: Ct, encU: Ct, encOutput: Ct)
    returns (encAvailNext: Ct, encOutputNext: Ct)
    requires nz.Valid() && IsPrime(nz.cc.p) && nz.slots == nz.range && 1 <= nz.range && nz.range + 1 < nz.cc.p
    requires IsOutput(nz.cc, encOutput, nz.slots) && IsCt(nz.cc, encT) && IsCt(nz.cc, encU)
    requires forall l :: 0 <= l < nz.slots ==> 0 <= encT[l] < nz.slots && (encU[l] == 0 || encU[l] == 1)
    requires forall l :: nz.slots <= l < nz.cc.S ==> encT[l] == 0
    ensures IsOutput(nz.cc, encOutputNext, nz.slots)
    ensures forall l :: 0 <= l < nz.slots ==> encOutputNext[l] == if encU[l] == 1 then encT[l] else encOutput[l]
    ensures encAvailNext == Pack(nz.cc, Unassigned(encOutputNext, nz.slots, nz.cc.p))
  {
    var cc, n := nz.cc, nz.slots;
    encOutputNext := UpdateOutput(cc, n, encT, encU, encOutput);
    UpdatedOutput(cc, n, encT, encU, encOutput, encOutputNext);
    encAvailNext := NextAvailabilityOf(nz, encOutputNext);
  }

  /** The availability step applied to a valid output gives the packed
      Unassigned vector. */
  method NextAvailabilityOf(nz: InitNotEqualZero, o: Ct) returns (a: Ct)
    requires nz.Valid() && IsPrime(nz.cc.p) && nz.slots == nz.range && 1 <= nz.range && nz.range + 1 < nz.cc.p
    requires IsOutput(nz.cc, o, nz.slots)
    ensures a == Pack(nz.cc, Unassigned(o, nz.slots, nz.cc.p))
  {
    a := AvailabilityFixed(nz, o);
    NextAvailability(nz.cc, nz.slots, o, a);
  }

  /** The item-index ciphertext holds indices below n, and zero beyond. */
  lemma ChoicesAreItems(cc: Context, f: seq<int>, n: nat, t: Ct)
    requires ValidContext(cc) && IsPointers(f, n) && n <= cc.S && n < cc.p && t == Pack(cc, ItemIndices(f))
    ensures IsCt(cc, t)
    ensures forall l :: 0 <= l < n ==> t[l] == ItemIndices(f)[l] && 0 <= t[l] < n
    ensures forall l :: n <= l < cc.S ==> t[l] == 0
  {
    forall l | 0 <= l < n
      ensures t[l] == ItemIndices(f)[l]
    {
      ModOfSmall(ItemIndices(f)[l], cc.p);
    }
  }

  /** Choosing slot by slot between item indices and a valid output keeps a
      valid output. */
  lemma UpdatedOutput(cc: Context, n: nat, t: Ct, u: Ct, o: Ct, r: Ct)
    requires IsOutput(cc, o, n) && IsCt(cc, r) && IsCt(cc, t) && IsCt(cc, u)
    requires forall l :: 0 <= l < n ==> 0 <= t[l] < n && (u[l] == 0 || u[l] == 1)
    requires forall l :: 0 <= l < n && u[l] == 1 ==> r[l] == t[l]
    requires forall l :: 0 <= l < n && u[l] == 0 ==> r[l] == o[l]
    requires forall l :: n <= l < cc.S ==> r[l] == 0
    ensures IsOutput(cc, r, n)
  {
  }

  /** The availability computed from the output is the packed Unassigned vector. */
  lemma NextAvailability(cc: Context, n: nat, o: Ct, a: Ct)
    requires ValidContext(cc) && IsPrime(cc.p) && n + 1 < cc.p && 1 <= n && IsOutput(cc, o, n) && IsCt(cc, a)
    requires forall l :: 0 <= l < n ==> a[l] == (1 - NezFixed((o[l] + 1) % cc.p, n, cc.p)) % cc.p
    requires forall l :: n <= l < cc.S ==> a[l] == 0
    ensures a == Pack(cc, Unassigned(o, n, cc.p))
  {
    var target := Pack(cc, Unassigned(o, n, cc.p));
    forall l | 0 <= l < cc.S
      ensures a[l] == target[l]
    {
      if l < n {
        AvailabilityFixedValues(o[l], n, cc.p);
        ModOfSmall(Unassigned(o, n, cc.p)[l], cc.p);
      }
    }
  }
}
