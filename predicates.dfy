/** The combinatorial predicates of the cycle-finding round, evaluated on
    encrypted slot vectors: the Hillis-Steele prefix product, keep-first-one
    and the bounded not-equal-zero polynomial. */
module Predicates {
  import opened ModArith
  import opened Slots
  import opened CryptoUtilities

  // ---------------------------------------------------------------------------
  // Products of slot ranges
  // ---------------------------------------------------------------------------

  /** Product modulo p of slots lo .. hi - 1 of x (one for an empty range). */
  function Prod(x: seq<int>, lo: int, hi: int, p: nat): (r: int)
    requires p >= 1
    ensures 0 <= r < p
    decreases hi - lo
  {
    if hi <= lo then 1 % p else (Prod(x, lo, hi - 1, p) * Slot(x, hi - 1)) % p
  }

  /** A product over a range splits at any point inside it. */
  lemma {:induction false} ProdSplit(x: seq<int>, lo: int, mid: int, hi: int, p: nat)
    requires p >= 1 && lo <= mid <= hi
    ensures Prod(x, lo, hi, p) == (Prod(x, lo, mid, p) * Prod(x, mid, hi, p)) % p
    decreases hi - mid
  {
    var a := Prod(x, lo, mid, p);
    if hi == mid {
      if p > 1 {
        ModOfSmall(1, p);
        ModOfSmall(a, p);
      }
    } else {
      ProdSplit(x, lo, mid, hi - 1, p);
      ModMulAssoc(a, Prod(x, mid, hi - 1, p), Slot(x, hi - 1), p);
    }
  }

  /** The product over a range depends on the slots in that range only. */
  lemma {:induction false} ProdAgree(x: seq<int>, y: seq<int>, lo: int, hi: int, p: nat)
    requires p >= 1
    requires forall j :: lo <= j < hi ==> Slot(x, j) == Slot(y, j)
    ensures Prod(x, lo, hi, p) == Prod(y, lo, hi, p)
    decreases hi - lo
  {
    if lo < hi {
      ProdAgree(x, y, lo, hi - 1, p);
    }
  }

  /** A one-slot range is that slot, reduced. */
  lemma ProdSingle(x: seq<int>, l: int, p: nat)
    requires p >= 2
    ensures Prod(x, l, l + 1, p) == Slot(x, l) % p
  {
    ModOfSmall(1, p);
  }

  // ---------------------------------------------------------------------------
  // evalPrefixMult
  // ---------------------------------------------------------------------------

  /** First position of the window of width w ending at l, clipped at 0. */
  function WindowStart(l: int, w: int): int {
    if l + 1 - w > 0 then l + 1 - w else 0
  }

  /** Ones at the first w of `slots` positions, zeros after them. */
  function OnesUpTo(slots: nat, w: int): (v: seq<int>)
    ensures |v| == slots
  {
    seq(slots, j => if j < w then 1 else 0)
  }

  /** The prefixOnes plaintext of one level: `slots` entries, the first w of
      them set to one cell by cell. */
  method LeadingOnes(slots: nat, w: nat) returns (prefixOnes: seq<int>)
    requires w <= slots
    ensures prefixOnes == OnesUpTo(slots, w)
  {
    prefixOnes := seq(slots, _ => 0);
    var j := 0;
    while j < w
      invariant 0 <= j <= w && |prefixOnes| == slots
      invariant forall k :: 0 <= k < slots ==> prefixOnes[k] == (if k < j then 1 else 0)
    {
      prefixOnes := prefixOnes[j := 1];
      j := j + 1;
    }
  }

  /** Enough zero slots after the first `slots` for the wrap-around reads of
      evalPrefixMult: S >= slots + 2^(L-1) with L = ceil(log2 slots). */
  predicate PrefixRoom(cc: Context, slots: nat) {
    1 <= slots <= cc.S && (CeilLog2(slots) >= 1 ==> cc.S >= slots + Pow2(CeilLog2(slots) - 1))
  }

  /** c holds the products over windows of width 2^i: slot l < slots is the
      product of the last 2^i slots of x up to l, and later slots are zero. */
  ghost predicate Windowed(cc: Context, x: Ct, slots: nat, c: Ct, i: nat) {
    ValidContext(cc) && IsCt(cc, c) && slots <= cc.S
    && (forall l :: 0 <= l < slots ==> c[l] == Prod(x, WindowStart(l, Pow2(i)), l + 1, cc.p))
    && (forall l :: slots <= l < cc.S ==> c[l] == 0)
  }

  /** The input itself holds the windows of width one. */
  lemma WindowedStart(cc: Context, x: Ct, slots: nat)
    requires ValidContext(cc) && IsCt(cc, x) && slots <= cc.S
    requires forall l :: slots <= l < cc.S ==> x[l] == 0
    ensures Windowed(cc, x, slots, x, 0)
  {
    forall l | 0 <= l < slots
      ensures x[l] == Prod(x, WindowStart(l, Pow2(0)), l + 1, cc.p)
    {
      ProdSingle(x, l, cc.p);
      ModOfSmall(x[l], cc.p);
    }
  }

  /** Level i of evalPrefixMult: rotating by -2^i, padding the first 2^i slots
      with ones and multiplying doubles the window width. */
  lemma PrefixLevel(cc: Context, x: Ct, slots: nat, c: Ct, i: nat, ones: Ct)
    requires Windowed(cc, x, slots, c, i)
    requires Pow2(i) < slots && cc.S >= slots + Pow2(i)
    requires ones == Pack(cc, OnesUpTo(slots, Pow2(i)))
    ensures Windowed(cc, x, slots, Mult(cc, c, Add(cc, Rotate(cc, c, -(Pow2(i) as int)), ones)), i + 1)
  {
    var w, w2 := Pow2(i) as int, Pow2(i + 1) as int;
    var c' := Mult(cc, c, Add(cc, Rotate(cc, c, -w), ones));
    forall l | 0 <= l < slots
      ensures c'[l] == Prod(x, WindowStart(l, w2), l + 1, cc.p)
    {
      PrefixLevelAt(cc, x, slots, c, i, w, w2, ones, l);
    }
    forall l | slots <= l < cc.S
      ensures c'[l] == 0
    {
      PrefixLevelAt(cc, x, slots, c, i, w, w2, ones, l);
    }
  }

  lemma PrefixLevelAt(cc: Context, x: Ct, slots: nat, c: Ct, i: nat, w: int, w2: int, ones: Ct, l: int)
    requires Windowed(cc, x, slots, c, i) && w == Pow2(i) && w2 == 2 * w
    requires w < slots && cc.S >= slots + w
    requires ones == Pack(cc, OnesUpTo(slots, w))
    requires 0 <= l < cc.S
    ensures l < slots ==> Mult(cc, c, Add(cc, Rotate(cc, c, -w), ones))[l] == Prod(x, WindowStart(l, w2), l + 1, cc.p)
    ensures slots <= l ==> Mult(cc, c, Add(cc, Rotate(cc, c, -w), ones))[l] == 0
  {
    var p := cc.p;
    var r := Rotate(cc, c, -w);
    var a := Add(cc, r, ones);
    assert Mult(cc, c, a)[l] == (c[l] * a[l]) % p;
    assert a[l] == (r[l] + ones[l]) % p;
    ModOfSmall(0, p);
    RotateBack(cc, c, w, l);
    if l >= w {
      if l < slots {
        assert ones[l] == 0;
        WindowsJoin(x, l, w, p, c[l], c[l - w]);
      }
    } else {
      assert c[cc.S + l - w] == 0;
      ModOfSmall(1, p);
      assert ones[l] == 1;
      ModOfSmall(c[l], p);
    }
  }

  /** Slot l of c rotated by -w reads slot l - w, cyclically over S. */
  lemma RotateBack(cc: Context, c: Ct, w: int, l: int)
    requires ValidContext(cc) && |c| == cc.S && 0 <= w <= cc.S && 0 <= l < cc.S
    ensures l >= w ==> Rotate(cc, c, -w)[l] == c[l - w]
    ensures l < w ==> Rotate(cc, c, -w)[l] == c[cc.S + l - w]
  {
    var k := -w;
    assert Rotate(cc, c, k)[l] == Slot(c, (l + k) % cc.S);
    if l >= w {
      DivModUnique(l + k, cc.S, 0, l - w);
    } else {
      DivModUnique(l + k, cc.S, -1, cc.S + l - w);
    }
  }

  /** Two adjacent windows of width w make one window of width 2w. */
  lemma WindowsJoin(x: seq<int>, l: int, w: int, p: nat, hi: int, lo: int)
    requires p >= 2 && 1 <= w <= l
    requires hi == Prod(x, WindowStart(l, w), l + 1, p)
    requires lo == Prod(x, WindowStart(l - w, w), l - w + 1, p)
    ensures (hi * ((lo + 0) % p)) % p == Prod(x, WindowStart(l, 2 * w), l + 1, p)
  {
    ModOfSmall(lo, p);
    ProdSplit(x, WindowStart(l, 2 * w), l + 1 - w, l + 1, p);
    assert hi * lo == lo * hi;
  }

  /** After ceil(log2 slots) levels the windows are whole prefixes. */
  lemma PrefixDone(cc: Context, x: Ct, slots: nat, c: Ct)
    requires slots >= 1 && Windowed(cc, x, slots, c, CeilLog2(slots))
    ensures IsCt(cc, c)
    ensures forall l :: 0 <= l < slots ==> c[l] == Prod(x, 0, l + 1, cc.p)
    ensures forall l :: slots <= l < cc.S ==> c[l] == 0
  {
    CeilLog2Bounds(slots);
  }

  /** The rotation keys InitPrefixMult generates: offsets 0, -1, ..., -(slots - 1). */
  class InitPrefixMult {
    const slots: nat
    const rotIndices: seq<int>

    constructor (slots: nat)
      ensures this.slots == slots
      ensures |rotIndices| == slots && forall i :: 0 <= i < slots ==> rotIndices[i] == -i
    {
      var indices: seq<int> := [];
      var i := 0;
      while i < slots
        invariant 0 <= i <= slots && |indices| == i
        invariant forall k :: 0 <= k < i ==> indices[k] == -k
      {
        indices := indices + [-i];
        i := i + 1;
      }
      this.slots := slots;
      rotIndices := indices;
    }
  }

  /** Every rotation evalPrefixMult performs, by -2^i for i < ceil(log2 slots),
      has a key among InitPrefixMult's offsets. */
  lemma PrefixRotationsHaveKeys(slots: nat, i: nat)
    requires slots >= 1 && i < CeilLog2(slots)
    ensures 0 <= Pow2(i) < slots
  {
    CeilLog2Bounds(slots);
    Pow2Monotone(i, CeilLog2(slots) - 1);
  }

  /** The per-level data of evalPrefixMult: the rotation steps 2^k and the
      prefixOnes plaintexts with 2^k leading ones, for every level k. */
  ghost predicate LevelData(cc: Context, slots: nat, levels: nat, rotSteps: seq<int>, leadingOnes: seq<Ct>) {
    ValidContext(cc) && slots <= cc.S && |rotSteps| == levels && |leadingOnes| == levels
    && forall k :: 0 <= k < levels ==> rotSteps[k] == Pow2(k) && leadingOnes[k] == Pack(cc, OnesUpTo(slots, Pow2(k)))
  }

  /** The first loop of evalPrefixMult: precompute the rotation steps and the
      prefixOnes plaintexts of the ceil(log2 slots) levels. */
  method PrefixLevels(cc: Context, slots: nat) returns (rotSteps: seq<int>, leadingOnesPlaintxts: seq<Ct>)
    requires ValidContext(cc) && 1 <= slots <= cc.S
    ensures LevelData(cc, slots, CeilLog2(slots), rotSteps, leadingOnesPlaintxts)
  {
    var levels := CeilLog2(slots);
    rotSteps := [];
    leadingOnesPlaintxts := [];
    var i := 0;
    while i < levels
      invariant 0 <= i <= levels
      invariant LevelData(cc, slots, i, rotSteps, leadingOnesPlaintxts)
    {
      var step := Pow2(i);
      PrefixRotationsHaveKeys(slots, i);
      var prefixOnes := LeadingOnes(slots, step);
      rotSteps := rotSteps + [step];
      leadingOnesPlaintxts := leadingOnesPlaintxts + [Pack(cc, prefixOnes)];
      i := i + 1;
    }
  }

  /** The room condition bounds every level's step. */
  lemma LevelRoom(cc: Context, slots: nat, i: nat)
    requires PrefixRoom(cc, slots) && i < CeilLog2(slots)
    ensures Pow2(i) < slots && cc.S >= slots + Pow2(i)
  {
    PrefixRotationsHaveKeys(slots, i);
    Pow2Monotone(i, CeilLog2(slots) - 1);
  }

  /** evalPrefixMult: slot l < slots of the result is x[0] * ... * x[l] mod p,
      and the later slots stay zero. */
  method PrefixMult(cc: Context, x: Ct, slots: nat) returns (c: Ct)
    requires ValidContext(cc) && IsCt(cc, x) && PrefixRoom(cc, slots)
    requires forall l :: slots <= l < cc.S ==> x[l] == 0
    ensures IsCt(cc, c)
    ensures forall l :: 0 <= l < slots ==> c[l] == Prod(x, 0, l + 1, cc.p)
    ensures forall l :: slots <= l < cc.S ==> c[l] == 0
  {
    var levels := CeilLog2(slots);
    var rotSteps, leadingOnesPlaintxts := PrefixLevels(cc, slots);
    var ciphertext1 := x;
    WindowedStart(cc, x, slots);
    var i := 0;
    while i < levels
      invariant 0 <= i <= levels
      invariant Windowed(cc, x, slots, ciphertext1, i)
    {
      var ciphertext2 := Rotate(cc, ciphertext1, -rotSteps[i]);
      ciphertext2 := Add(cc, ciphertext2, leadingOnesPlaintxts[i]);
      LevelRoom(cc, slots, i);
      PrefixLevel(cc, x, slots, ciphertext1, i, leadingOnesPlaintxts[i]);
      ciphertext1 := Mult(cc, ciphertext1, ciphertext2);
      i := i + 1;
    }
    PrefixDone(cc, x, slots, ciphertext1);
    c := ciphertext1;
  }

  // ---------------------------------------------------------------------------
  // evalPreserveLeadOne
  // ---------------------------------------------------------------------------

  /** The complements 1 - v[j] modulo p. */
  function Complement(v: seq<int>, p: nat): (r: seq<int>)
    requires p >= 1
    ensures |r| == |v|
  {
    seq(|v|, j requires 0 <= j < |v| => (1 - v[j]) % p)
  }

  /** Keep-first-one, slot by slot: out[l] = v[l] * (1 - v[0]) * ... * (1 - v[l - 1]) mod p. */
  function LeadOne(v: seq<int>, p: nat): (r: seq<int>)
    requires p >= 1
    ensures |r| == |v|
  {
    seq(|v|, l requires 0 <= l < |v| => (v[l] * Prod(Complement(v, p), 0, l, p)) % p)
  }

  /** The masks InitPreserveLeadOne encrypts once for a slot count. */
  class InitPreserveLeadOne {
    const cc: Context
    const slots: nat
    /** The rotation keys of the prefix product it relies on. */
    const initPrefixMult: InitPrefixMult
    const encOnes: Ct
    const encNegOnes: Ct
    const encLeadingOne: Ct

    predicate Valid() {
      ValidContext(cc) && 1 <= slots <= cc.S && initPrefixMult.slots == slots
      && encOnes == Pack(cc, Constant(slots, 1))
      && encNegOnes == Pack(cc, Constant(slots, cc.p - 1))
      && encLeadingOne == Pack(cc, OnesUpTo(slots, 1))
    }

    constructor (cc: Context, slots: nat)
      requires ValidContext(cc) && 1 <= slots <= cc.S
      ensures Valid() && this.cc == cc && this.slots == slots
    {
      var prefix := new InitPrefixMult(slots);
      var ones := Constant(slots, 1);
      var leadingOne := seq(slots, _ => 0)[0 := 1];
      var negOnes := Constant(slots, cc.p - 1);
      assert leadingOne == OnesUpTo(slots, 1);
      this.cc := cc;
      this.slots := slots;
      initPrefixMult := prefix;
      encOnes := Pack(cc, ones);
      encNegOnes := Pack(cc, negOnes);
      encLeadingOne := Pack(cc, leadingOne);
    }
  }

  /** x * (p - 1) + 1 is the complement 1 - x modulo p. */
  lemma ComplementSlot(x: int, p: nat)
    requires p >= 2
    ensures ((x * ((p - 1) % p)) % p + 1 % p) % p == (1 - x) % p
  {
    ModOfSmall(p - 1, p);
    ModOfSmall(1, p);
    ModAddLeft(x * (p - 1), 1, p);
    assert x * (p - 1) + 1 == x * p + (1 - x);
    ModAddMultiple(x, 1 - x, p);
  }

  /** The first step of evalPreserveLeadOne: the complements of the first
      `slots` slots, zero beyond them. */
  lemma DiffsAreComplements(lead: InitPreserveLeadOne, x: Ct)
    requires lead.Valid() && IsCt(lead.cc, x)
    ensures var diffs := Add(lead.cc, Mult(lead.cc, x, lead.encNegOnes), lead.encOnes);
      (forall j :: 0 <= j < lead.slots ==> diffs[j] == Complement(x[..lead.slots], lead.cc.p)[j])
      && (forall j :: lead.slots <= j < lead.cc.S ==> diffs[j] == 0)
  {
    var cc := lead.cc;
    var diffs := Add(cc, Mult(cc, x, lead.encNegOnes), lead.encOnes);
    forall j | 0 <= j < lead.slots
      ensures diffs[j] == Complement(x[..lead.slots], cc.p)[j]
    {
      ComplementSlot(x[j], cc.p);
    }
    ModOfSmall(0, cc.p);
  }

  /** evalPreserveLeadOne: slot l < slots of the result is
      x[l] * (1 - x[0]) * ... * (1 - x[l - 1]) mod p.  The slot just past the
      window carries the same product for x[slots]; every later slot is zero. */
  method PreserveLeadOne(lead: InitPreserveLeadOne, x: Ct) returns (c: Ct)
    requires lead.Valid() && IsCt(lead.cc, x) && PrefixRoom(lead.cc, lead.slots) && lead.slots < lead.cc.S
    ensures IsCt(lead.cc, c)
    ensures c[..lead.slots] == LeadOne(x[..lead.slots], lead.cc.p)
    ensures c[lead.slots] == (x[lead.slots] * Prod(Complement(x[..lead.slots], lead.cc.p), 0, lead.slots, lead.cc.p)) % lead.cc.p
    ensures forall l :: lead.slots < l < lead.cc.S ==> c[l] == 0
  {
    var cc := lead.cc;
    var encDiffs := Add(cc, Mult(cc, x, lead.encNegOnes), lead.encOnes);
    DiffsAreComplements(lead, x);
    var encPrefix := PrefixMult(cc, encDiffs, lead.slots);
    c := Mult(cc, x, Add(cc, lead.encLeadingOne, Rotate(cc, encPrefix, -1)));
    LeadOneSlots(lead, x, encDiffs, encPrefix);
  }

  lemma LeadOneSlots(lead: InitPreserveLeadOne, x: Ct, diffs: Ct, prefix: Ct)
    requires lead.Valid() && IsCt(lead.cc, x) && lead.slots < lead.cc.S
    requires |diffs| == lead.cc.S && |prefix| == lead.cc.S
    requires forall j :: 0 <= j < lead.slots ==> diffs[j] == Complement(x[..lead.slots], lead.cc.p)[j]
    requires forall l :: 0 <= l < lead.slots ==> prefix[l] == Prod(diffs, 0, l + 1, lead.cc.p)
    requires forall l :: lead.slots <= l < lead.cc.S ==> prefix[l] == 0
    ensures var c := Mult(lead.cc, x, Add(lead.cc, lead.encLeadingOne, Rotate(lead.cc, prefix, -1)));
      && c[..lead.slots] == LeadOne(x[..lead.slots], lead.cc.p)
      && c[lead.slots] == (x[lead.slots] * Prod(Complement(x[..lead.slots], lead.cc.p), 0, lead.slots, lead.cc.p)) % lead.cc.p
      && forall l :: lead.slots < l < lead.cc.S ==> c[l] == 0
  {
    var cc, n, p := lead.cc, lead.slots, lead.cc.p;
    var lo := lead.encLeadingOne;
    ModOfSmall(0, p);
    ModOfSmall(1, p);
    assert forall j :: 0 <= j < cc.S ==> lo[j] == (if j == 0 then 1 else 0);
    var comp := Complement(x[..n], p);
    var r := Rotate(cc, prefix, -1);
    forall l | 0 <= l < cc.S
      ensures r[l] == (if l == 0 then 0 else prefix[l - 1])
    {
      RotateBack(cc, prefix, 1, l);
    }
    forall l | 1 <= l <= n
      ensures prefix[l - 1] == Prod(comp, 0, l, p)
    {
      PrefixOfDiffs(diffs, comp, n, p, l);
    }
    LeadOneAssemble(cc, n, x, lo, r, comp);
  }

  /** Assembling the result of evalPreserveLeadOne from the rotated prefix
      products: r[l] is the product of the complements below l. */
  lemma LeadOneAssemble(cc: Context, n: nat, x: Ct, lo: Ct, r: Ct, comp: seq<int>)
    requires ValidContext(cc) && IsCt(cc, x) && n < cc.S && |comp| == n
    requires |lo| == cc.S && forall j :: 0 <= j < cc.S ==> lo[j] == (if j == 0 then 1 else 0)
    requires |r| == cc.S && r[0] == 0
    requires forall l :: 1 <= l <= n ==> r[l] == Prod(comp, 0, l, cc.p)
    requires forall l :: n < l < cc.S ==> r[l] == 0
    ensures var c := Mult(cc, x, Add(cc, lo, r));
      && (forall l :: 0 <= l <= n ==> c[l] == (x[l] * Prod(comp, 0, l, cc.p)) % cc.p)
      && forall l :: n < l < cc.S ==> c[l] == 0
  {
    var p := cc.p;
    var c := Mult(cc, x, Add(cc, lo, r));
    forall l | 0 <= l < cc.S
      ensures c[l] == (x[l] * (if l == 0 then 1 else if l <= n then Prod(comp, 0, l, p) else 0)) % p
    {
      var v := if l == 0 then 1 else if l <= n then Prod(comp, 0, l, p) else 0;
      assert lo[l] + r[l] == v;
      ModOfSmall(v, p);
    }
    assert Prod(comp, 0, 0, p) == 1 by {
      ModOfSmall(1, p);
    }
    ModOfSmall(0, p);
  }

  lemma PrefixOfDiffs(diffs: seq<int>, comp: seq<int>, n: nat, p: nat, l: int)
    requires p >= 1 && |comp| == n <= |diffs| && 0 <= l <= n
    requires forall j :: 0 <= j < n ==> diffs[j] == comp[j]
    ensures Prod(diffs, 0, l, p) == Prod(comp, 0, l, p)
  {
    ProdAgree(diffs, comp, 0, l, p);
  }

  // ---------------------------------------------------------------------------
  // Keep-first-one on 0/1 vectors
  // ---------------------------------------------------------------------------

  /** Every entry is 0 or 1. */
  predicate IsBits(v: seq<int>) {
    forall j :: 0 <= j < |v| ==> v[j] == 0 || v[j] == 1
  }

  /** Position of the first 1 in v, or |v| when there is none. */
  function FirstOne(v: seq<int>): (k: nat)
    ensures k <= |v|
    ensures k < |v| ==> v[k] == 1
    ensures forall j :: 0 <= j < k ==> v[j] != 1
  {
    if |v| == 0 then 0 else if v[0] == 1 then 0 else 1 + FirstOne(v[1..])
  }

  /** The product of the complements of a 0/1 prefix is 1 exactly when no
      entry of the prefix is 1. */
  lemma {:induction false} ComplementProd(v: seq<int>, p: nat, l: int)
    requires p >= 2 && IsBits(v) && 0 <= l <= |v|
    ensures Prod(Complement(v, p), 0, l, p) == if l <= FirstOne(v) then 1 else 0
    decreases l
  {
    var comp := Complement(v, p);
    ModOfSmall(0, p);
    ModOfSmall(1, p);
    if l > 0 {
      ComplementProd(v, p, l - 1);
      assert Slot(comp, l - 1) == 1 - v[l - 1];
    }
  }

  /** On a 0/1 vector, keep-first-one leaves exactly the first 1 (nothing when
      there is none): the result is the one-hot vector at FirstOne(v). */
  lemma LeadOneIsFirstOne(v: seq<int>, p: nat)
    requires p >= 2 && IsBits(v)
    ensures LeadOne(v, p) == OneHot(|v|, FirstOne(v))
  {
    var r := LeadOne(v, p);
    forall l | 0 <= l < |v|
      ensures r[l] == OneHot(|v|, FirstOne(v))[l]
    {
      ComplementProd(v, p, l);
      ModOfSmall(0, p);
      ModOfSmall(1, p);
    }
  }

  /** The first 1 of a one-hot vector is its hot position. */
  lemma FirstOneOfOneHot(n: nat, e: nat)
    requires e <= n
    ensures FirstOne(OneHot(n, e)) == e
  {
    var k := FirstOne(OneHot(n, e));
    if e < n {
      assert OneHot(n, e)[e] == 1;
    }
  }

  /** On a 0/1 vector the result has at most one 1, and it sits where the
      first 1 of the input is. */
  lemma LeadOneAtMostOne(v: seq<int>, p: nat)
    requires p >= 2 && IsBits(v)
    ensures IsBits(LeadOne(v, p))
    ensures forall i, j :: 0 <= i < j < |v| && LeadOne(v, p)[i] == 1 ==> LeadOne(v, p)[j] == 0
    ensures forall i :: 0 <= i < |v| && LeadOne(v, p)[i] == 1 ==> v[i] == 1 && forall j :: 0 <= j < i ==> v[j] == 0
  {
    LeadOneIsFirstOne(v, p);
  }

  /** Keeping the first one twice is the same as keeping it once. */
  lemma LeadOneIdempotent(v: seq<int>, p: nat)
    requires p >= 2 && IsBits(v)
    ensures LeadOne(LeadOne(v, p), p) == LeadOne(v, p)
  {
    LeadOneIsFirstOne(v, p);
    var w := OneHot(|v|, FirstOne(v));
    FirstOneOfOneHot(|v|, FirstOne(v));
    LeadOneIsFirstOne(w, p);
  }

  // ---------------------------------------------------------------------------
  // evalNotEqualZero
  // ---------------------------------------------------------------------------

  /** (v - 1)(v - 2)...(v - k) modulo p. */
  function FallingProd(v: int, k: nat, p: nat): (r: int)
    requires p >= 1
    ensures 0 <= r < p
  {
    if k == 0 then 1 % p else (FallingProd(v, k - 1, p) * (v - k)) % p
  }

  /** (-1)^k. */
  function Sign(k: nat): int {
    if k % 2 == 0 then 1 else -1
  }

  /** The constant InitNotEqualZero precomputes: the inverse of r! modulo p. */
  function InvFactorial(r: nat, p: nat): int
    requires p >= 2
  {
    ModInverse(ModFactorial(r, p), p)
  }

  /** The scaled product (v - 1)...(v - r) / r! modulo p. */
  function NezProduct(v: int, r: nat, p: nat): (prod: int)
    requires p >= 2
    ensures 0 <= prod < p
  {
    (FallingProd(v, r, p) * InvFactorial(r, p)) % p
  }

  /** The polynomial evalNotEqualZero evaluates on a slot value v:
      c + (v - 1)...(v - r) / r!, where c is 1 for odd r and p - 1 for even r. */
  function NezAsWritten(v: int, r: nat, p: nat): int
    requires p >= 2
  {
    var prod := NezProduct(v, r, p);
    if r % 2 == 1 then (1 + prod) % p else (p - 1 + prod) % p
  }

  /** The polynomial with the sign of the even case applied to the product
      instead of added: 1 - (v - 1)...(v - r) / r! for even r. */
  function NezFixed(v: int, r: nat, p: nat): int
    requires p >= 2
  {
    var prod := NezProduct(v, r, p);
    if r % 2 == 1 then (1 + prod) % p else (1 + ((p - 1) * prod) % p) % p
  }

  /** Constants InitNotEqualZero encrypts once for a slot count and a range. */
  class InitNotEqualZero {
    const cc: Context
    const slots: nat
    const range: nat
    const encOne: Ct
    const encInvFactorial: Ct
    /** encNegRange[i] holds p - (i + 1) in every slot below `slots`. */
    const encNegRange: seq<Ct>

    predicate Valid() {
      ValidContext(cc) && slots <= cc.S && |encNegRange| == range
      && encOne == Pack(cc, Constant(slots, 1))
      && encInvFactorial == Pack(cc, Constant(slots, InvFactorial(range, cc.p)))
      && forall i :: 0 <= i < range ==> encNegRange[i] == Pack(cc, Constant(slots, cc.p - (i + 1)))
    }

    constructor (cc: Context, slots: nat, range: nat)
      requires ValidContext(cc) && slots <= cc.S
      ensures Valid() && this.cc == cc && this.slots == slots && this.range == range
    {
      var factorialRange := ModFactorial(range, cc.p);
      var invFactorialRange := ModInverse(factorialRange, cc.p);
      var negRange: seq<Ct> := [];
      var i := 1;
      while i <= range
        invariant 1 <= i <= range + 1 && |negRange| == i - 1
        invariant forall k :: 0 <= k < i - 1 ==> negRange[k] == Pack(cc, Constant(slots, cc.p - (k + 1)))
      {
        negRange := negRange + [Pack(cc, Constant(slots, cc.p - i))];
        i := i + 1;
      }
      this.cc := cc;
      this.slots := slots;
      this.range := range;
      encInvFactorial := Pack(cc, Constant(slots, invFactorialRange));
      encOne := Pack(cc, Constant(slots, 1));
      encNegRange := negRange;
    }
  }

  /** The running product of the differences x - 1, ..., x - k in a slot below
      `slots` is the falling product. */
  lemma {:induction false} DiffsFalling(nz: InitNotEqualZero, x: Ct, diffs: seq<Ct>, k: nat, l: int)
    requires nz.Valid() && IsCt(nz.cc, x) && k <= nz.range && k <= |diffs| && 0 <= l < nz.slots
    requires forall i :: 0 <= i < k ==> diffs[i] == Add(nz.cc, x, nz.encNegRange[i])
    ensures SlotProduct(nz.cc, diffs, k, l) == FallingProd(x[l], k, nz.cc.p)
    decreases k
  {
    if k > 0 {
      var p := nz.cc.p;
      DiffsFalling(nz, x, diffs, k - 1, l);
      var d := Slot(diffs[k - 1], l);
      assert d == (x[l] + (p - k) % p) % p;
      DiffCongruent(x[l], k, p);
      ModMulCongruent(FallingProd(x[l], k - 1, p), d, x[l] - k, p);
    }
  }

  /** x + (p - k mod p), reduced, is congruent to x - k. */
  lemma DiffCongruent(x: int, k: int, p: nat)
    requires p >= 1
    ensures ((x + (p - k) % p) % p) % p == (x - k) % p
  {
    ModMod(x + (p - k) % p, p);
    ModAdd(x, p - k, p);
    ModAdd(x, (p - k) % p, p);
    ModMod(p - k, p);
    ModAddMultiple(1, x - k, p);
    assert x + (p - k) == 1 * p + (x - k);
  }

  /** The slot values of the product evalNotEqualZero forms. */
  lemma NezProductSlots(nz: InitNotEqualZero, x: Ct, diffs: seq<Ct>)
    requires nz.Valid() && IsCt(nz.cc, x) && |diffs| == nz.range + 1
    requires forall i :: 0 <= i < nz.range ==> diffs[i] == Add(nz.cc, x, nz.encNegRange[i])
    requires diffs[nz.range] == nz.encInvFactorial
    ensures forall l :: 0 <= l < nz.slots ==>
      MultMany(nz.cc, diffs)[l] == NezProduct(x[l], nz.range, nz.cc.p)
    ensures forall l :: nz.slots <= l < nz.cc.S ==> MultMany(nz.cc, diffs)[l] == 0
  {
    var p := nz.cc.p;
    var inv := InvFactorial(nz.range, p);
    ModOfSmall(inv, p);
    ModOfSmall(0, p);
    forall l | 0 <= l < nz.slots
      ensures MultMany(nz.cc, diffs)[l] == NezProduct(x[l], nz.range, p)
    {
      DiffsFalling(nz, x, diffs, nz.range, l);
      assert Slot(diffs[nz.range], l) == inv;
    }
    forall l | nz.slots <= l < nz.cc.S
      ensures MultMany(nz.cc, diffs)[l] == 0
    {
      assert Slot(diffs[nz.range], l) == 0;
      assert SlotProduct(nz.cc, diffs, nz.range, l) * 0 == 0;
    }
  }

  /** The differences x - i of evalNotEqualZero, one ciphertext per i in 1..range. */
  method RangeDiffs(nz: InitNotEqualZero, x: Ct) returns (encDiffs: seq<Ct>)
    requires nz.Valid() && IsCt(nz.cc, x)
    ensures |encDiffs| == nz.range
    ensures forall i :: 0 <= i < nz.range ==> encDiffs[i] == Add(nz.cc, x, nz.encNegRange[i])
  {
    encDiffs := [];
    var i := 0;
    while i < nz.range
      invariant 0 <= i <= nz.range && |encDiffs| == i
      invariant forall k :: 0 <= k < i ==> encDiffs[k] == Add(nz.cc, x, nz.encNegRange[k])
    {
      encDiffs := encDiffs + [Add(nz.cc, x, nz.encNegRange[i])];
      i := i + 1;
    }
  }

  /** Adding the constant of the odd or even case to the product gives the
      as-written polynomial in every slot below `slots`. */
  lemma NezAsWrittenSlots(cc: Context, slots: nat, range: nat, x: Ct, m: Ct, k: Ct)
    requires ValidContext(cc) && slots <= cc.S && IsCt(cc, x) && IsCt(cc, m)
    requires forall l :: 0 <= l < slots ==> m[l] == NezProduct(x[l], range, cc.p)
    requires forall l :: slots <= l < cc.S ==> m[l] == 0
    requires k == Pack(cc, Constant(slots, if range % 2 == 1 then 1 else cc.p - 1))
    ensures forall l :: 0 <= l < slots ==> Add(cc, k, m)[l] == NezAsWritten(x[l], range, cc.p)
    ensures forall l :: slots <= l < cc.S ==> Add(cc, k, m)[l] == 0
  {
    var p := cc.p;
    var a := if range % 2 == 1 then 1 else p - 1;
    ModOfSmall(a, p);
    forall l | 0 <= l < slots
      ensures Add(cc, k, m)[l] == NezAsWritten(x[l], range, p)
    {
      assert Slot(k, l) == a;
    }
    forall l | slots <= l < cc.S
      ensures Add(cc, k, m)[l] == 0
    {
      assert Slot(k, l) == 0 && Slot(m, l) == 0;
      ModOfSmall(0, p);
    }
  }

  /** 1 + (p - 1) * product, slot by slot, is the corrected polynomial for an
      even range. */
  lemma NezFixedSlots(cc: Context, slots: nat, range: nat, x: Ct, m: Ct, one: Ct, neg: Ct)
    requires ValidContext(cc) && slots <= cc.S && IsCt(cc, x) && IsCt(cc, m) && range % 2 == 0
    requires forall l :: 0 <= l < slots ==> m[l] == NezProduct(x[l], range, cc.p)
    requires forall l :: slots <= l < cc.S ==> m[l] == 0
    requires one == Pack(cc, Constant(slots, 1)) && neg == Pack(cc, Constant(slots, cc.p - 1))
    ensures forall l :: 0 <= l < slots ==> Add(cc, one, Mult(cc, neg, m))[l] == NezFixed(x[l], range, cc.p)
    ensures forall l :: slots <= l < cc.S ==> Add(cc, one, Mult(cc, neg, m))[l] == 0
  {
    var p := cc.p;
    var t := Mult(cc, neg, m);
    ModOfSmall(1, p);
    ModOfSmall(p - 1, p);
    ModOfSmall(0, p);
    forall l | 0 <= l < slots
      ensures Add(cc, one, t)[l] == NezFixed(x[l], range, p)
    {
      assert Slot(neg, l) == p - 1;
      assert t[l] == ((p - 1) * m[l]) % p;
      assert Slot(one, l) == 1;
    }
    forall l | slots <= l < cc.S
      ensures Add(cc, one, t)[l] == 0
    {
      assert Slot(neg, l) == 0;
      assert t[l] == (0 * m[l]) % p == 0;
      assert Slot(one, l) == 0;
    }
  }

  /** evalNotEqualZero as written: slot l < slots holds NezAsWritten(x[l]),
      later slots are zero.  The even branch reads encNegRange[0], so the
      range must be at least one. */
  method NotEqualZero(nz: InitNotEqualZero, x: Ct) returns (c: Ct)
    requires nz.Valid() && IsCt(nz.cc, x) && nz.range >= 1
    ensures IsCt(nz.cc, c)
    ensures forall l :: 0 <= l < nz.slots ==> c[l] == NezAsWritten(x[l], nz.range, nz.cc.p)
    ensures forall l :: nz.slots <= l < nz.cc.S ==> c[l] == 0
  {
    var encDiffs := RangeDiffs(nz, x);
    encDiffs := encDiffs + [nz.encInvFactorial];
    var encMult := MultMany(nz.cc, encDiffs);
    NezProductSlots(nz, x, encDiffs);
    if nz.range % 2 == 1 {
      c := Add(nz.cc, nz.encOne, encMult);
    } else {
      c := Add(nz.cc, nz.encNegRange[0], encMult);
    }
    NezAsWrittenSlots(nz.cc, nz.slots, nz.range, x, encMult, if nz.range % 2 == 1 then nz.encOne else nz.encNegRange[0]);
  }

  /** evalNotEqualZero with the even case computing 1 - product, so that the
      result is the 0/1 indicator for every range. */
  method NotEqualZeroFixed(nz: InitNotEqualZero, x: Ct) returns (c: Ct)
    requires nz.Valid() && IsCt(nz.cc, x) && nz.range >= 1
    ensures IsCt(nz.cc, c)
    ensures forall l :: 0 <= l < nz.slots ==> c[l] == NezFixed(x[l], nz.range, nz.cc.p)
    ensures forall l :: nz.slots <= l < nz.cc.S ==> c[l] == 0
  {
    var encDiffs := RangeDiffs(nz, x);
    encDiffs := encDiffs + [nz.encInvFactorial];
    var encMult := MultMany(nz.cc, encDiffs);
    NezProductSlots(nz, x, encDiffs);
    if nz.range % 2 == 1 {
      c := Add(nz.cc, nz.encOne, encMult);
      NezAsWrittenSlots(nz.cc, nz.slots, nz.range, x, encMult, nz.encOne);
    } else {
      c := Add(nz.cc, nz.encOne, Mult(nz.cc, nz.encNegRange[0], encMult));
      NezFixedSlots(nz.cc, nz.slots, nz.range, x, encMult, nz.encOne, nz.encNegRange[0]);
    }
  }

  /** The falling product vanishes on 1..k: one of its factors is v - v. */
  lemma {:induction false} FallingVanishes(v: int, k: nat, p: nat)
    requires p >= 1 && 1 <= v <= k
    ensures FallingProd(v, k, p) == 0
  {
    if v < k {
      FallingVanishes(v, k - 1, p);
      assert FallingProd(v, k - 1, p) * (v - k) == 0;
    } else {
      assert FallingProd(v, k - 1, p) * (v - k) == 0;
    }
    ModOfSmall(0, p);
  }

  /** The falling product only depends on v modulo p. */
  lemma {:induction false} FallingCongruent(v: int, w: int, k: nat, p: nat)
    requires p >= 1 && v % p == w % p
    ensures FallingProd(v, k, p) == FallingProd(w, k, p)
  {
    if k > 0 {
      FallingCongruent(v, w, k - 1, p);
      ModSub(v, k, p);
      ModSub(w, k, p);
      ModMulCongruent(FallingProd(v, k - 1, p), v - k, w - k, p);
    }
  }

  /** At zero, (0 - 1)...(0 - k) is (-1)^k k!. */
  lemma {:induction false} FallingAtZero(k: nat, p: nat)
    requires p >= 1
    ensures FallingProd(0, k, p) == (Sign(k) * Fact(k)) % p
  {
    if k == 0 {
    } else {
      FallingAtZero(k - 1, p);
      var s, f := Sign(k - 1), Fact(k - 1);
      ModMulLeft(s * f, 0 - k, p);
      assert s * f * (0 - k) == Sign(k) * Fact(k) by {
        assert Sign(k) == -s && Fact(k) == k * f;
        if s == 1 {
          assert f * (0 - k) == -(k * f);
        } else {
          assert -f * (0 - k) == k * f;
        }
      }
    }
  }

  /** At minus one, (-1 - 1)...(-1 - k) is (-1)^k (k + 1)!. */
  lemma {:induction false} FallingAtMinusOne(k: nat, p: nat)
    requires p >= 1
    ensures FallingProd(-1, k, p) == (Sign(k) * Fact(k + 1)) % p
  {
    if k == 0 {
    } else {
      FallingAtMinusOne(k - 1, p);
      var s, f := Sign(k - 1), Fact(k);
      ModMulLeft(s * f, -1 - k, p);
      assert s * f * (-1 - k) == Sign(k) * Fact(k + 1) by {
        assert Sign(k) == -s && Fact(k + 1) == (k + 1) * f;
        if s == 1 {
          assert f * (-1 - k) == -((k + 1) * f);
        } else {
          assert -f * (-1 - k) == (k + 1) * f;
        }
      }
    }
  }

  /** For a prime p above r, the precomputed constant is the inverse of r!. */
  lemma InvFactorialCancels(r: nat, p: nat)
    requires IsPrime(p) && r < p
    ensures (Fact(r) * InvFactorial(r, p)) % p == 1
  {
    var f, inv := Fact(r), InvFactorial(r, p);
    FactNotMultiple(r, p);
    ModMod(f, p);
    assert (inv * (f % p)) % p == 1;
    ModMulLeft(f, inv, p);
    assert (f % p) * inv == inv * (f % p);
  }

  /** (s * r!) * InvFactorial(r) is s modulo p. */
  lemma ScaledFactorial(s: int, r: nat, p: nat)
    requires IsPrime(p) && r < p
    ensures (((s * Fact(r)) % p) * InvFactorial(r, p)) % p == s % p
  {
    InvFactorialCancels(r, p);
    ModMulAssoc(s, Fact(r), InvFactorial(r, p), p);
    ModMulCongruent(s, (Fact(r) * InvFactorial(r, p)) % p, 1, p);
    ModOfSmall(1, p);
  }

  /** At zero the scaled product is (-1)^r. */
  lemma ProductAtZero(r: nat, p: nat)
    requires IsPrime(p) && r < p
    ensures NezProduct(0, r, p) == if r % 2 == 1 then p - 1 else 1
  {
    FallingAtZero(r, p);
    ScaledFactorial(Sign(r), r, p);
    ModOfSmall(1, p);
    ModAddMultiple(1, -1, p);
    ModOfSmall(p - 1, p);
  }

  /** At minus one the scaled product is (-1)^r (r + 1). */
  lemma ProductAtMinusOne(r: nat, p: nat)
    requires IsPrime(p) && r + 1 < p
    ensures NezProduct(p - 1, r, p) == if r % 2 == 1 then p - r - 1 else r + 1
  {
    ModAddMultiple(1, -1, p);
    FallingCongruent(p - 1, -1, r, p);
    FallingAtMinusOne(r, p);
    var s := Sign(r);
    assert s * Fact(r + 1) == (s * (r + 1)) * Fact(r) by {
      assert Fact(r + 1) == (r + 1) * Fact(r);
    }
    ScaledFactorial(s * (r + 1), r, p);
    if r % 2 == 1 {
      ModAddMultiple(1, -(r + 1), p);
      ModOfSmall(p - r - 1, p);
    } else {
      ModOfSmall(r + 1, p);
    }
  }

  /** (p - 1) * x is -x modulo p. */
  lemma NegateMod(x: int, p: nat)
    requires p >= 1 && 0 <= x < p
    ensures ((p - 1) * x) % p == (p - x) % p
  {
    assert (p - 1) * x == (x - 1) * p + (p - x);
    ModAddMultiple(x - 1, p - x, p);
  }

  /** Both polynomials send zero to zero when p is a prime above the range. */
  lemma NezAtZero(r: nat, p: nat)
    requires IsPrime(p) && r < p
    ensures NezAsWritten(0, r, p) == 0 && NezFixed(0, r, p) == 0
  {
    ProductAtZero(r, p);
    NegateMod(1, p);
    ModOfSmall(p - 1, p);
    assert p % p == 0 by { ModOfMultiple(1, p); }
    if r % 2 == 1 {
      assert 1 + NezProduct(0, r, p) == p;
    } else {
      assert p - 1 + NezProduct(0, r, p) == p;
      assert 1 + ((p - 1) * NezProduct(0, r, p)) % p == p;
    }
  }

  /** On 1..r the product vanishes: the as-written polynomial gives 1 for an
      odd range and p - 1 for an even one; the corrected one gives 1. */
  lemma NezOnRange(v: int, r: nat, p: nat)
    requires p >= 2 && 1 <= v <= r
    ensures NezAsWritten(v, r, p) == if r % 2 == 1 then 1 else p - 1
    ensures NezFixed(v, r, p) == 1
  {
    FallingVanishes(v, r, p);
    assert FallingProd(v, r, p) * InvFactorial(r, p) == 0;
    assert (p - 1) * 0 == 0;
    ModOfSmall(0, p);
    ModOfSmall(1, p);
    ModOfSmall(p - 1, p);
  }

  /** The corrected polynomial is the indicator of v != 0 on 0..r. */
  lemma NezFixedIndicator(v: int, r: nat, p: nat)
    requires IsPrime(p) && r < p && 0 <= v <= r
    ensures NezFixed(v, r, p) == if v == 0 then 0 else 1
  {
    if v == 0 {
      NezAtZero(r, p);
    } else {
      NezOnRange(v, r, p);
    }
  }

  /** Outside 0..r, at the value p - 1 (minus one), both polynomials give
      p - r, which is neither 0 nor 1 once 1 <= r < p - 1. */
  lemma NezAtMinusOne(r: nat, p: nat)
    requires IsPrime(p) && 1 <= r && r + 1 < p
    ensures NezFixed(p - 1, r, p) == p - r
    ensures r % 2 == 1 ==> NezAsWritten(p - 1, r, p) == p - r
  {
    ProductAtMinusOne(r, p);
    ModOfSmall(p - r, p);
    var prod := NezProduct(p - 1, r, p);
    if r % 2 == 1 {
      assert 1 + prod == p - r;
    } else {
      NegateMod(r + 1, p);
      ModOfSmall(p - r - 1, p);
      assert 1 + ((p - 1) * prod) % p == p - r;
    }
  }
}
