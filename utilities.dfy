/** Setup and helper routines shared by the encrypted algorithms: rotation
    offsets and slot masks, exponentiation by squaring, and the
    decrypt-and-re-encrypt refresh helpers. */
module CryptoUtilities {
  import opened ModArith
  import opened Slots

  /** The one-hot plaintext vector of length n with a 1 at position e. */
  function OneHot(n: nat, e: int): (v: seq<int>)
    ensures |v| == n
  {
    seq(n, j => if j == e then 1 else 0)
  }

  /** The plaintext vector of length n with every entry v. */
  function Constant(n: nat, v: int): (c: seq<int>)
    ensures |c| == n
  {
    seq(n, _ => v)
  }

  /** The rotation offsets 0, 0, -1, 1, ..., -(m - 1), m - 1. */
  function SymOffsets(m: nat): (r: seq<int>)
    ensures |r| == 2 * m
  {
    if m == 0 then [] else SymOffsets(m - 1) + [-(m - 1), m - 1]
  }

  /** The rotation offsets 2^0, ..., 2^(m - 1). */
  function PowOffsets(m: nat): (r: seq<int>)
    ensures |r| == m
  {
    if m == 0 then [] else PowOffsets(m - 1) + [Pow2(m - 1)]
  }

  /** The offsets for which InitRotsMasks generates rotation keys. */
  function RotOffsets(slots: nat): seq<int> {
    SymOffsets(slots + 1) + PowOffsets(CeilLog2(slots) + 1)
  }

  /** The unit masks InitRotsMasks encrypts, one per slot position. */
  function UnitMasks(cc: Context, slots: nat): (ms: seq<Ct>)
    requires ValidContext(cc) && slots <= cc.S
    ensures |ms| == slots
  {
    seq(slots, e requires 0 <= e < slots => Pack(cc, OneHot(slots, e)))
  }

  lemma {:induction false} SymOffsetsMembers(m: nat)
    ensures forall o :: o in SymOffsets(m) <==> -(m as int) < o < m
  {
    if m > 0 {
      SymOffsetsMembers(m - 1);
      forall o
        ensures o in SymOffsets(m) <==> -(m as int) < o < m
      {
        assert o in SymOffsets(m) <==> o in SymOffsets(m - 1) || o == -(m - 1) || o == m - 1;
      }
    }
  }

  lemma {:induction false} PowOffsetsAt(m: nat)
    ensures forall k :: 0 <= k < m ==> PowOffsets(m)[k] == Pow2(k)
  {
    if m > 0 {
      PowOffsetsAt(m - 1);
    }
  }

  /** Rotation keys exist for every offset in [-slots, slots] and for the
      powers 2^k with k up to the ceiling of log2(slots). */
  lemma RotOffsetsCover(slots: nat)
    ensures forall o :: -(slots as int) <= o <= slots ==> o in RotOffsets(slots)
    ensures forall k :: 0 <= k <= CeilLog2(slots) ==> Pow2(k) in RotOffsets(slots)
  {
    var sym, pow := SymOffsets(slots + 1), PowOffsets(CeilLog2(slots) + 1);
    SymOffsetsMembers(slots + 1);
    PowOffsetsAt(CeilLog2(slots) + 1);
    assert RotOffsets(slots) == sym + pow;
    forall k | 0 <= k <= CeilLog2(slots)
      ensures Pow2(k) in RotOffsets(slots)
    {
      assert pow[k] == Pow2(k);
    }
  }

  /** ... and for no other offset. */
  lemma RotOffsetsOnly(slots: nat, o: int)
    requires o in RotOffsets(slots)
    ensures -(slots as int) <= o <= slots || exists k :: 0 <= k <= CeilLog2(slots) && o == Pow2(k)
  {
    var sym, pow := SymOffsets(slots + 1), PowOffsets(CeilLog2(slots) + 1);
    assert RotOffsets(slots) == sym + pow;
    if o in sym {
      SymOffsetsMembers(slots + 1);
    } else {
      PowOffsetsAt(CeilLog2(slots) + 1);
      assert o in pow;
      var k :| 0 <= k < |pow| && pow[k] == o;
      assert o == Pow2(k);
    }
  }

  /** Mask e is the unit vector at slot e. */
  lemma UnitMasksAreUnits(cc: Context, slots: nat)
    requires ValidContext(cc) && slots <= cc.S
    ensures forall e :: 0 <= e < slots ==> UnitMasks(cc, slots)[e] == Unit(cc, e, 1)
  {
    forall e | 0 <= e < slots
      ensures UnitMasks(cc, slots)[e] == Unit(cc, e, 1)
    {
      PackOneHot(cc, slots, e);
    }
  }

  /** Rotation keys and slot masks prepared once for a crypto context. */
  class InitRotsMasks {
    const cc: Context
    const slots: nat
    /** The offsets for which rotation keys were generated. */
    var rotIndices: seq<int>
    /** Encryptions of the unit masks, one per slot position below slots. */
    var encMasks: seq<Ct>

    predicate Valid()
      reads this
    {
      ValidContext(cc) && 1 <= slots <= cc.S
      && rotIndices == RotOffsets(slots)
      && |encMasks| == slots
      && forall e :: 0 <= e < slots ==> encMasks[e] == Unit(cc, e, 1)
    }

    constructor (cc: Context, slots: nat)
      requires ValidContext(cc) && 1 <= slots <= cc.S
      ensures Valid()
      ensures this.cc == cc && this.slots == slots
      ensures encMasks == UnitMasks(cc, slots)
    {
      var indices: seq<int> := [];
      var i := 0;
      while i <= slots
        invariant 0 <= i <= slots + 1
        invariant indices == SymOffsets(i)
      {
        indices := indices + [-i, i];
        i := i + 1;
      }
      var kCeil := CeilLog2(slots);
      var k := 0;
      while k <= kCeil
        invariant 0 <= k <= kCeil + 1
        invariant indices == SymOffsets(slots + 1) + PowOffsets(k)
      {
        indices := indices + [Pow2(k)];
        k := k + 1;
      }
      var masks: seq<Ct> := [];
      var elem := 0;
      while elem < slots
        invariant 0 <= elem <= slots
        invariant masks == UnitMasks(cc, slots)[..elem]
      {
        masks := masks + [Pack(cc, OneHot(slots, elem))];
        elem := elem + 1;
      }
      this.cc := cc;
      this.slots := slots;
      rotIndices := indices;
      encMasks := masks;
      UnitMasksAreUnits(cc, slots);
    }
  }

  // ---------------------------------------------------------------------------
  // Exponentiation by squaring
  // ---------------------------------------------------------------------------

  /** The slot-wise power x^e modulo p. */
  function PowSlots(cc: Context, x: Ct, e: nat): (c: Ct)
    requires ValidContext(cc)
    ensures IsCt(cc, c)
  {
    seq(cc.S, l => PowMod(Slot(x, l), e, cc.p))
  }

  /** Squaring the slot-wise power x^a gives x^(2a). */
  lemma SquarePowSlots(cc: Context, x: Ct, a: nat)
    requires ValidContext(cc)
    ensures Mult(cc, PowSlots(cc, x, a), PowSlots(cc, x, a)) == PowSlots(cc, x, 2 * a)
  {
    forall l | 0 <= l < cc.S
      ensures Mult(cc, PowSlots(cc, x, a), PowSlots(cc, x, a))[l] == PowSlots(cc, x, 2 * a)[l]
    {
      PowModAdd(Slot(x, l), a, a, cc.p);
    }
  }

  /** A 32-bit exponent other than zero has non-zero low bits. */
  lemma Low32NonZero(e: int)
    requires IsInt32(e) && e != 0
    ensures Low32(e) >= 1
  {
    var M := 0x1_0000_0000;
    if e > 0 {
      ModOfSmall(e, M);
    } else {
      ModAddMultiple(1, e, M);
      ModOfSmall(e + M, M);
    }
  }

  /** The scan of evalExponentiate for the most significant set bit, from
      bit 31 down; the result is the bit length of u. */
  method MsbFromTop(u: nat) returns (msbPosition: int)
    requires 1 <= u < Pow2(32)
    ensures msbPosition == BitLength(u) >= 1
  {
    var numBits := 32;
    msbPosition := -1;
    var i := numBits - 1;
    while i >= 0
      invariant -1 <= i <= 31 && msbPosition == -1
      invariant u < Pow2(i + 1)
    {
      TopBit(u, i);
      if Bit(u, i) == 1 {
        msbPosition := i + 1;
        BitLengthOfRange(u, i + 1);
        return;
      }
      i := i - 1;
    }
  }

  /** The slot-wise product of the ciphertexts in vs is x^e. */
  predicate ProductIsPower(cc: Context, x: Ct, vs: seq<Ct>, e: nat)
    requires ValidContext(cc) && IsCt(cc, x)
  {
    forall l :: 0 <= l < cc.S ==> SlotProduct(cc, vs, |vs|, l) == PowMod(x[l], e, cc.p)
  }

  /** Selecting one more squaring x^(2^i) for a set bit i of u extends the
      product of the selected squarings from x^(u mod 2^i) to x^(u mod 2^(i+1)),
      the low i and i + 1 bits of u. */
  lemma SelectSquaring(cc: Context, x: Ct, u: nat, i: nat, selected: seq<Ct>, sq: Ct)
    requires ValidContext(cc) && IsCt(cc, x) && Bit(u, i) == 1
    requires sq == PowSlots(cc, x, Pow2(i))
    requires ProductIsPower(cc, x, selected, LowBits(u, i))
    ensures ProductIsPower(cc, x, selected + [sq], LowBits(u, i + 1))
  {
    forall l | 0 <= l < cc.S
      ensures SlotProduct(cc, selected + [sq], |selected| + 1, l) == PowMod(x[l], LowBits(u, i + 1), cc.p)
    {
      SlotProductAppend(cc, selected, sq, l);
      PowModAdd(x[l], LowBits(u, i), Pow2(i), cc.p);
    }
  }

  /** evalExponentiate: square-and-multiply.  The exponent is a 32-bit int
      whose bits are read in two's complement, so a negative exponent acts as
      its low 32 bits read unsigned.  Exponent zero would leave the product
      list empty, which the engine rejects. */
  method Exponentiate(cc: Context, x: Ct, exponent: int) returns (c: Ct)
    requires ValidContext(cc) && IsCt(cc, x)
    requires IsInt32(exponent) && exponent != 0
    ensures c == PowSlots(cc, x, Low32(exponent))
  {
    var u := Low32(exponent);
    Low32NonZero(exponent);
    var msbPosition := MsbFromTop(u);
    var squarings := SquaringsOf(cc, x, msbPosition);
    var selected := SelectBits(cc, x, u, msbPosition, squarings);
    c := MultMany(cc, selected);
  }

  /** The squaring loop of evalExponentiate: x^(2^i) for i < m. */
  method SquaringsOf(cc: Context, x: Ct, m: nat) returns (squarings: seq<Ct>)
    requires ValidContext(cc) && IsCt(cc, x) && m >= 1
    ensures |squarings| == m
    ensures forall k :: 0 <= k < m ==> squarings[k] == PowSlots(cc, x, Pow2(k))
  {
    squarings := [x];
    PowOneSlots(cc, x);
    var i := 1;
    while i < m
      invariant 1 <= i <= m && |squarings| == i
      invariant forall k :: 0 <= k < i ==> squarings[k] == PowSlots(cc, x, Pow2(k))
    {
      var next := Mult(cc, squarings[i - 1], squarings[i - 1]);
      assert next == PowSlots(cc, x, Pow2(i)) by {
        SquarePowSlots(cc, x, Pow2(i - 1));
      }
      squarings := squarings + [next];
      i := i + 1;
    }
  }

  /** The selection loop of evalExponentiate: the squarings at the set bits
      of u are kept, and their slot-wise product is x^u. */
  method SelectBits(cc: Context, x: Ct, u: nat, m: nat, squarings: seq<Ct>) returns (selected: seq<Ct>)
    requires ValidContext(cc) && IsCt(cc, x) && u >= 1 && m == BitLength(u)
    requires |squarings| == m
    requires forall k :: 0 <= k < m ==> squarings[k] == PowSlots(cc, x, Pow2(k))
    ensures |selected| >= 1 && MultMany(cc, selected) == PowSlots(cc, x, u)
  {
    selected := [];
    var i := 0;
    while i < m
      invariant 0 <= i <= m
      invariant |selected| == 0 <==> LowBits(u, i) == 0
      invariant ProductIsPower(cc, x, selected, LowBits(u, i))
    {
      if Bit(u, i) == 1 {
        SelectSquaring(cc, x, u, i, selected, squarings[i]);
        selected := selected + [squarings[i]];
      }
      i := i + 1;
    }
    BitLengthBounds(u);
    LowBitsBounds(u, m);
    ProductIsPowerSlots(cc, x, selected, u);
  }

  /** A product that is x^e slot by slot is PowSlots(x, e). */
  lemma ProductIsPowerSlots(cc: Context, x: Ct, vs: seq<Ct>, e: nat)
    requires ValidContext(cc) && IsCt(cc, x) && |vs| >= 1 && ProductIsPower(cc, x, vs, e)
    ensures MultMany(cc, vs) == PowSlots(cc, x, e)
  {
    forall l | 0 <= l < cc.S
      ensures MultMany(cc, vs)[l] == PowSlots(cc, x, e)[l]
    {
    }
  }

  lemma PowOneSlots(cc: Context, x: Ct)
    requires ValidContext(cc) && IsCt(cc, x)
    ensures x == PowSlots(cc, x, Pow2(0))
  {
    forall l | 0 <= l < cc.S
      ensures x[l] == PowSlots(cc, x, 1)[l]
    {
      PowModOne(x[l], cc.p);
    }
  }

  // ---------------------------------------------------------------------------
  // Refresh helpers
  // ---------------------------------------------------------------------------

  /** refreshInPlace: decrypt, keep the first `slots` values and encrypt them
      again, which zeroes every later slot. */
  function Refresh(cc: Context, c: Ct, slots: nat): (r: Ct)
    requires ValidContext(cc) && IsCt(cc, c) && slots <= cc.S
    ensures IsCt(cc, r)
    ensures forall l :: 0 <= l < slots ==> r[l] == c[l]
    ensures forall l :: slots <= l < cc.S ==> r[l] == 0
  {
    RefreshKeepsResidues(cc, c, slots);
    Pack(cc, c[..slots])
  }

  lemma RefreshKeepsResidues(cc: Context, c: Ct, slots: nat)
    requires ValidContext(cc) && IsCt(cc, c) && slots <= cc.S
    ensures forall l :: 0 <= l < slots ==> c[l] % cc.p == c[l]
  {
    forall l | 0 <= l < slots
      ensures c[l] % cc.p == c[l]
    {
      ModOfSmall(c[l], cc.p);
    }
  }

  /** Refreshing a ciphertext already zero beyond `slots` changes nothing. */
  lemma RefreshIdentity(cc: Context, c: Ct, slots: nat)
    requires ValidContext(cc) && IsCt(cc, c) && slots <= cc.S
    requires forall l :: slots <= l < cc.S ==> c[l] == 0
    ensures Refresh(cc, c, slots) == c
  {
  }

  /** refreshElems: one fresh ciphertext per slot below `slots`, holding that
      slot's value in slot 0 and zero elsewhere. */
  method RefreshElems(cc: Context, c: Ct, slots: nat) returns (elems: seq<Ct>)
    requires ValidContext(cc) && IsCt(cc, c) && slots <= cc.S
    ensures |elems| == slots
    ensures forall i :: 0 <= i < slots ==> elems[i] == Unit(cc, 0, c[i])
  {
    RefreshKeepsResidues(cc, c, slots);
    elems := [];
    var i := 0;
    while i < slots
      invariant 0 <= i <= slots && |elems| == i
      invariant forall k :: 0 <= k < i ==> elems[k] == Unit(cc, 0, c[k])
    {
      var element := seq(slots, j => if j == 0 then c[i] else 0);
      PackAtZero(cc, slots, c[i]);
      elems := elems + [Pack(cc, element)];
      i := i + 1;
    }
  }

  lemma PackAtZero(cc: Context, n: nat, v: int)
    requires ValidContext(cc) && 1 <= n <= cc.S && 0 <= v < cc.p
    ensures Pack(cc, seq(n, j => if j == 0 then v else 0)) == Unit(cc, 0, v)
  {
    ModOfSmall(v, cc.p);
    ModOfSmall(0, cc.p);
  }

  /** Moving each refreshed element back to its own slot and adding them up
      rebuilds the refreshed ciphertext. */
  lemma RefreshElemsRebuild(cc: Context, c: Ct, slots: nat, elems: seq<Ct>)
    requires ValidContext(cc) && IsCt(cc, c) && slots <= cc.S && |elems| == slots
    requires forall i :: 0 <= i < slots ==> elems[i] == Unit(cc, 0, c[i])
    ensures AddMany(cc, seq(slots, i requires 0 <= i < slots => Rotate(cc, elems[i], -i))) == Refresh(cc, c, slots)
  {
    var moved := seq(slots, i requires 0 <= i < slots => Rotate(cc, elems[i], -i));
    forall i | 0 <= i < slots
      ensures moved[i] == Unit(cc, i, c[..slots][i])
    {
      RotateUnit(cc, 0, i, c[i]);
    }
    AddManyUnits(cc, moved, c[..slots]);
  }
}
