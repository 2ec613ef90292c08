/** The homomorphic-encryption engine seen at slot level.  A ciphertext is
    identified with its decrypted slot vector: S residues modulo the plaintext
    modulus p.  Encryption and decryption are the identity at this level, and
    each scheme operation acts on the slot vector. */
module Slots {
  import opened ModArith

  /** Public parameters of a crypto context: slot count and plaintext modulus. */
  datatype Context = Context(S: nat, p: nat)

  predicate ValidContext(cc: Context) {
    cc.S >= 1 && cc.p >= 2
  }

  /** A ciphertext, as the vector of its slot values. */
  type Ct = seq<int>

  /** Well-formed slot vector: S slots, each a residue modulo p. */
  predicate IsCt(cc: Context, v: Ct) {
    |v| == cc.S && forall l :: 0 <= l < |v| ==> 0 <= v[l] < cc.p
  }

  predicate AllCts(cc: Context, vs: seq<Ct>) {
    forall i :: 0 <= i < |vs| ==> IsCt(cc, vs[i])
  }

  /** Slot l of v, reading zero outside the vector. */
  function Slot(v: Ct, l: int): int {
    if 0 <= l < |v| then v[l] else 0
  }

  /** Slot l of the i-th ciphertext of a list, zero when out of range. */
  function SlotOf(vs: seq<Ct>, i: int, l: int): int {
    if 0 <= i < |vs| then Slot(vs[i], l) else 0
  }

  /** MakePackedPlaintext followed by Encrypt: the values are reduced modulo p
      and the vector is padded with zeros up to S slots. */
  function Pack(cc: Context, v: seq<int>): (c: Ct)
    requires ValidContext(cc) && |v| <= cc.S
    ensures IsCt(cc, c)
    ensures forall l :: 0 <= l < |v| ==> c[l] == v[l] % cc.p
    ensures forall l :: |v| <= l < cc.S ==> c[l] == 0
  {
    seq(cc.S, l => if 0 <= l < |v| then v[l] % cc.p else 0)
  }

  /** Decrypting a packed encryption and keeping its first |v| slots gives
      back v whenever every value is already a residue modulo p, and
      encryptions of two such vectors of the same length differ exactly when
      the vectors do. */
  lemma PackRoundTrip(cc: Context, v: seq<int>, w: seq<int>)
    requires ValidContext(cc) && |v| <= cc.S && |w| == |v|
    requires forall i :: 0 <= i < |v| ==> 0 <= v[i] < cc.p
    requires forall i :: 0 <= i < |w| ==> 0 <= w[i] < cc.p
    ensures Pack(cc, v)[..|v|] == v
    ensures Pack(cc, v) == Pack(cc, w) <==> v == w
  {
    forall i | 0 <= i < |v|
      ensures Pack(cc, v)[i] == v[i] && Pack(cc, w)[i] == w[i]
    {
      ModOfSmall(v[i], cc.p);
      ModOfSmall(w[i], cc.p);
    }
    assert Pack(cc, w)[..|w|] == w;
  }

  /** EvalAdd: slot-wise addition modulo p. */
  function Add(cc: Context, a: Ct, b: Ct): (c: Ct)
    requires ValidContext(cc)
    ensures IsCt(cc, c)
  {
    seq(cc.S, l => (Slot(a, l) + Slot(b, l)) % cc.p)
  }

  /** EvalMult: slot-wise multiplication modulo p. */
  function Mult(cc: Context, a: Ct, b: Ct): (c: Ct)
    requires ValidContext(cc)
    ensures IsCt(cc, c)
  {
    seq(cc.S, l => (Slot(a, l) * Slot(b, l)) % cc.p)
  }

  /** EvalRotate: cyclic shift, out[l] = v[(l + k) mod S]; a positive k moves
      data towards slot 0. */
  function Rotate(cc: Context, v: Ct, k: int): (c: Ct)
    requires ValidContext(cc)
    ensures |c| == cc.S
  {
    seq(cc.S, l => Slot(v, (l + k) % cc.S))
  }

  /** Rotation keeps a well-formed ciphertext well-formed. */
  lemma RotateIsCt(cc: Context, v: Ct, k: int)
    requires ValidContext(cc) && IsCt(cc, v)
    ensures IsCt(cc, Rotate(cc, v, k))
  {
    var c := Rotate(cc, v, k);
    forall l | 0 <= l < cc.S
      ensures 0 <= c[l] < cc.p
    {
      var x := (l + k) % cc.S;
      assert c[l] == Slot(v, x);
    }
  }

  /** EvalAddMany: slot-wise sum of a list of ciphertexts modulo p. */
  function AddMany(cc: Context, vs: seq<Ct>): (c: Ct)
    requires ValidContext(cc)
    ensures IsCt(cc, c)
  {
    seq(cc.S, l => Sum(|vs|, i => SlotOf(vs, i, l)) % cc.p)
  }

  /** Slot-wise product modulo p of the first k ciphertexts of a list. */
  function SlotProduct(cc: Context, vs: seq<Ct>, k: nat, l: int): (r: int)
    requires ValidContext(cc) && k <= |vs|
    ensures 0 <= r < cc.p
    decreases k
  {
    if k == 0 then 1 % cc.p else (SlotProduct(cc, vs, k - 1, l) * Slot(vs[k - 1], l)) % cc.p
  }

  /** The running product over the first k ciphertexts depends on those only. */
  lemma {:induction false} SlotProductPrefix(cc: Context, vs: seq<Ct>, ws: seq<Ct>, k: nat, l: int)
    requires ValidContext(cc) && k <= |vs| && k <= |ws| && vs[..k] == ws[..k]
    ensures SlotProduct(cc, vs, k, l) == SlotProduct(cc, ws, k, l)
    decreases k
  {
    if k > 0 {
      assert vs[..k - 1] == ws[..k - 1] by {
        assert vs[..k - 1] == vs[..k][..k - 1];
        assert ws[..k - 1] == ws[..k][..k - 1];
      }
      assert vs[k - 1] == vs[..k][k - 1];
      assert ws[k - 1] == ws[..k][k - 1];
      SlotProductPrefix(cc, vs, ws, k - 1, l);
    }
  }

  /** Appending a ciphertext multiplies the running product by its slot. */
  lemma SlotProductAppend(cc: Context, vs: seq<Ct>, y: Ct, l: int)
    requires ValidContext(cc)
    ensures SlotProduct(cc, vs + [y], |vs| + 1, l) == (SlotProduct(cc, vs, |vs|, l) * Slot(y, l)) % cc.p
  {
    assert (vs + [y])[..|vs|] == vs[..|vs|];
    SlotProductPrefix(cc, vs + [y], vs, |vs|, l);
  }

  /** EvalMultMany: slot-wise product of a non-empty list modulo p. */
  function MultMany(cc: Context, vs: seq<Ct>): (c: Ct)
    requires ValidContext(cc) && |vs| >= 1
    ensures IsCt(cc, c)
  {
    seq(cc.S, l => SlotProduct(cc, vs, |vs|, l))
  }

  /** Sum of a[j] * b[j] over j < w (no reduction). */
  function Dot(a: Ct, b: Ct, w: nat): int {
    Sum(w, j => Slot(a, j) * Slot(b, j))
  }

  /** EvalInnerProduct(a, b, w): slot 0 holds the inner product of the first w
      slots modulo p.  The other slots hold the cyclic window sums that the
      rotate-and-add summation leaves behind; no caller relies on them. */
  function InnerProduct(cc: Context, a: Ct, b: Ct, w: nat): (c: Ct)
    requires ValidContext(cc)
    ensures IsCt(cc, c)
  {
    seq(cc.S, l => Sum(w, j => Slot(a, (l + j) % cc.S) * Slot(b, (l + j) % cc.S)) % cc.p)
  }

  /** The slot vector holding v at position pos and zero elsewhere. */
  function Unit(cc: Context, pos: int, v: int): (c: Ct)
    ensures |c| == cc.S
  {
    seq(cc.S, l => if l == pos then v else 0)
  }

  // ---------------------------------------------------------------------------
  // Facts about the slot operations
  // ---------------------------------------------------------------------------

  lemma UnitIsCt(cc: Context, pos: int, v: int)
    requires 0 <= v < cc.p
    ensures IsCt(cc, Unit(cc, pos, v))
  {
  }

  /** Packing a one-hot vector gives the unit ciphertext. */
  lemma PackOneHot(cc: Context, n: nat, e: int)
    requires ValidContext(cc) && n <= cc.S && 0 <= e < n
    ensures Pack(cc, seq(n, i => if i == e then 1 else 0)) == Unit(cc, e, 1)
  {
    var c := Pack(cc, seq(n, i => if i == e then 1 else 0));
    forall l | 0 <= l < cc.S
      ensures c[l] == Unit(cc, e, 1)[l]
    {
      if l < n {
        ModOfSmall(if l == e then 1 else 0, cc.p);
      }
    }
  }

  /** Multiplying by the unit mask at e isolates slot e. */
  lemma MultByMask(cc: Context, x: Ct, e: int)
    requires ValidContext(cc) && IsCt(cc, x) && 0 <= e < cc.S
    ensures Mult(cc, x, Unit(cc, e, 1)) == Unit(cc, e, x[e])
  {
    var c := Mult(cc, x, Unit(cc, e, 1));
    forall l | 0 <= l < cc.S
      ensures c[l] == Unit(cc, e, x[e])[l]
    {
      if l == e {
        ModOfSmall(x[e], cc.p);
      }
    }
  }

  /** Rotating by pos - target moves the value at pos to target. */
  lemma RotateUnit(cc: Context, pos: int, target: int, v: int)
    requires ValidContext(cc) && 0 <= pos < cc.S && 0 <= target < cc.S
    ensures Rotate(cc, Unit(cc, pos, v), pos - target) == Unit(cc, target, v)
  {
    var c := Rotate(cc, Unit(cc, pos, v), pos - target);
    forall l | 0 <= l < cc.S
      ensures c[l] == Unit(cc, target, v)[l]
    {
      var x := (l + (pos - target)) % cc.S;
      assert c[l] == Slot(Unit(cc, pos, v), x);
      assert Slot(Unit(cc, pos, v), x) == if x == pos then v else 0;
      RotateIndex(cc.S, l, pos, target);
    }
  }

  lemma RotateIndex(S: nat, l: int, pos: int, target: int)
    requires 0 <= l < S && 0 <= pos < S && 0 <= target < S
    ensures ((l + (pos - target)) % S == pos) <==> (l == target)
  {
    var x := l + (pos - target);
    if l == target {
      ModOfSmall(pos, S);
    } else if x >= S {
      ModAddMultiple(1, x - S, S);
      ModOfSmall(x - S, S);
    } else if x < 0 {
      ModAddMultiple(-1, x + S, S);
      ModOfSmall(x + S, S);
    } else {
      ModOfSmall(x, S);
    }
  }

  /** Summing ciphertexts whose i-th one holds vals[i] at slot i and zero
      elsewhere lays the values out side by side. */
  lemma AddManyUnits(cc: Context, vs: seq<Ct>, vals: seq<int>)
    requires ValidContext(cc) && |vs| == |vals| <= cc.S
    requires forall i :: 0 <= i < |vs| ==> vs[i] == Unit(cc, i, vals[i])
    requires forall i :: 0 <= i < |vals| ==> 0 <= vals[i] < cc.p
    ensures AddMany(cc, vs) == Pack(cc, vals)
  {
    var c := AddMany(cc, vs);
    forall l | 0 <= l < cc.S
      ensures c[l] == Pack(cc, vals)[l]
    {
      var f := i => SlotOf(vs, i, l);
      if l < |vs| {
        SumSingle(|vs|, f, l);
        ModOfSmall(vals[l], cc.p);
      } else {
        SumZero(|vs|, f);
      }
    }
  }

  /** Slot 0 of the inner product is the modular dot product of the first w slots. */
  lemma InnerProductSlot0(cc: Context, a: Ct, b: Ct, w: nat)
    requires ValidContext(cc) && w <= cc.S
    ensures InnerProduct(cc, a, b, w)[0] == Dot(a, b, w) % cc.p
  {
    forall j | 0 <= j < w
      ensures j % cc.S == j
    {
      ModOfSmall(j, cc.S);
    }
    SumExt(w, j => Slot(a, (0 + j) % cc.S) * Slot(b, (0 + j) % cc.S), j => Slot(a, j) * Slot(b, j));
  }

  /** The isolate-slot-0 idiom: an inner product masked with mask[0]. */
  lemma MaskedInnerProduct(cc: Context, a: Ct, b: Ct, w: nat)
    requires ValidContext(cc) && w <= cc.S
    ensures Mult(cc, InnerProduct(cc, a, b, w), Unit(cc, 0, 1)) == Unit(cc, 0, Dot(a, b, w) % cc.p)
  {
    InnerProductSlot0(cc, a, b, w);
    MultByMask(cc, InnerProduct(cc, a, b, w), 0);
  }
}
