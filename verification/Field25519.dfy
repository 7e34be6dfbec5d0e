/** Arithmetic in the integers modulo 2^255 - 19 on four little-endian 64-bit limbs. */
module Field25519 {
  import opened ModArith
  import opened Words

  /** The modulus 2^255 - 19, and powers of the limb base. */
  const P: int := 0x7fffffffffffffffffffffffffffffffffffffffffffffffffffffffffffffed
  const B2: int := 0x1_0000_0000_0000_0000_0000_0000_0000_0000
  const B3: int := 0x1_0000_0000_0000_0000_0000_0000_0000_0000_0000_0000_0000_0000
  const B4: int := 0x1_0000_0000_0000_0000_0000_0000_0000_0000_0000_0000_0000_0000_0000_0000_0000_0000
  const TOP: int := 0x8000_0000_0000_0000

  /** Four limbs, least significant first. */
  datatype Fe = Fe(l0: Word, l1: Word, l2: Word, l3: Word)

  const FIELD_P := Fe(0xffffffffffffffed, 0xffffffffffffffff, 0xffffffffffffffff, 0x7fffffffffffffff)
  const FIELD_A := Fe(486662, 0, 0, 0)
  const FIELD_NEG_A := Fe(0xfffffffffff892e7, 0xffffffffffffffff, 0xffffffffffffffff, 0x7fffffffffffffff)
  const FIELD_HALF := Fe(0xfffffffffffffff6, 0xffffffffffffffff, 0xffffffffffffffff, 0x3fffffffffffffff)
  const FIELD_ZERO := Fe(0, 0, 0, 0)
  const FIELD_ONE := Fe(1, 0, 0, 0)
  const FIELD_TWO := Fe(2, 0, 0, 0)
  const FIELD_SQRT_M1 := Fe(0xc4ee1b274a0ea0b0, 0x2f431806ad2fe478, 0x2b4d00993dfbd7a7, 0x2b8324804fc1df0b)

  /** The integer that four limbs stand for. */
  function Val(z: Fe): (v: int)
    ensures 0 <= v < B4
  {
    z.l0 + BASE * z.l1 + B2 * z.l2 + B3 * z.l3
  }

  predicate IsCanonical(z: Fe) {
    Val(z) < P
  }

  /** Different limbs stand for different integers. */
  lemma ValInjective(a: Fe, b: Fe)
    requires Val(a) == Val(b)
    ensures a == b
  {
    Digit(a.l0 - b.l0, a.l1 - b.l1 + BASE * (a.l2 - b.l2) + B2 * (a.l3 - b.l3));
    Digit(a.l1 - b.l1, a.l2 - b.l2 + BASE * (a.l3 - b.l3));
    Digit(a.l2 - b.l2, a.l3 - b.l3);
  }

  lemma Digit(d: int, rest: int)
    requires -BASE < d < BASE
    requires d + BASE * rest == 0
    ensures d == 0 && rest == 0
  {}

  // ---------------------------------------------------------------------------------------
  // Carry and borrow chains
  // ---------------------------------------------------------------------------------------

  /** Limb-wise addition with a carry in: the low 256 bits and the carry out. */
  function AddLimbs(z: Fe, x: Fe, c: Word): (Fe, Word) {
    var (z0, c0) := Add64(z.l0, x.l0, c);
    var (z1, c1) := Add64(z.l1, x.l1, c0);
    var (z2, c2) := Add64(z.l2, x.l2, c1);
    var (z3, c3) := Add64(z.l3, x.l3, c2);
    (Fe(z0, z1, z2, z3), c3)
  }

  lemma AddLimbsValue(z: Fe, x: Fe, c: Word)
    requires c <= 1
    ensures var (r, carry) := AddLimbs(z, x, c); Val(r) + B4 * carry == Val(z) + Val(x) + c && carry <= 1
  {}

  method AddChain(z: Fe, x: Fe, c: Word) returns (r: Fe, carry: Word)
    requires c <= 1
    ensures Val(r) + B4 * carry == Val(z) + Val(x) + c
    ensures carry <= 1
  {
    AddLimbsValue(z, x, c);
    r, carry := AddLimbs(z, x, c).0, AddLimbs(z, x, c).1;
  }

  /** Limb-wise subtraction: the low 256 bits and the borrow out. */
  function SubLimbs(z: Fe, x: Fe): (Fe, Word) {
    var (z0, b0) := Sub64(z.l0, x.l0, 0);
    var (z1, b1) := Sub64(z.l1, x.l1, b0);
    var (z2, b2) := Sub64(z.l2, x.l2, b1);
    var (z3, b3) := Sub64(z.l3, x.l3, b2);
    (Fe(z0, z1, z2, z3), b3)
  }

  lemma SubLimbsValue(z: Fe, x: Fe)
    ensures var (r, borrow) := SubLimbs(z, x);
            Val(r) == Val(z) - Val(x) + B4 * borrow && borrow == if Val(z) < Val(x) then 1 else 0
  {}

  method SubChain(z: Fe, x: Fe) returns (r: Fe, borrow: Word)
    ensures Val(r) == Val(z) - Val(x) + B4 * borrow
    ensures borrow == if Val(z) < Val(x) then 1 else 0
  {
    SubLimbsValue(z, x);
    r, borrow := SubLimbs(z, x).0, SubLimbs(z, x).1;
  }

  /** lessMask: the borrow of the subtraction. */
  method Less(z: Fe, x: Fe) returns (mask: bool)
    ensures mask <==> Val(z) < Val(x)
  {
    var _, borrow := SubChain(z, x);
    mask := borrow == 1;
  }

  method LessOrEqual(z: Fe, x: Fe) returns (mask: bool)
    ensures mask <==> Val(z) <= Val(x)
  {
    var less := Less(z, x);
    if Val(z) == Val(x) {
      ValInjective(z, x);
    }
    mask := less || z == x;
  }

  /** fieldSelect under a mask of all ones (`mask`) or of zeros. */
  function Select(a: Fe, b: Fe, mask: bool): Fe {
    if mask then a else b
  }

  /** Subtracts the modulus once when that does not borrow. */
  function CanonicalLimbs(z: Fe): Fe {
    Select(SubLimbs(z, FIELD_P).0, z, SubLimbs(z, FIELD_P).1 == 0)
  }

  lemma CanonicalValue(z: Fe)
    ensures Val(CanonicalLimbs(z)) == if Val(z) < P then Val(z) else Val(z) - P
  {
    SubLimbsValue(z, FIELD_P);
    hide SubLimbs;
  }

  method Canonical(z: Fe) returns (r: Fe)
    ensures Val(r) == if Val(z) < P then Val(z) else Val(z) - P
  {
    CanonicalValue(z);
    r := CanonicalLimbs(z);
  }

  /** Folds `carry` times 2^256 and the top bit of the limbs back in, 19 for each 2^255, and
      subtracts the modulus once if that is possible. Every word operation wraps. */
  function FoldLimbs(z: Fe, carry: Word): Fe {
    var high: int := Wrap(z.l3 / TOP + Wrap(2 * carry));
    var low := Fe(z.l0, z.l1, z.l2, z.l3 % TOP);
    CanonicalLimbs(AddLimbs(low, Fe(Wrap(19 * high), 0, 0, 0), 0).0)
  }

  /** The result is the remainder whenever 19 times the folded bits fits one word. */
  lemma FoldValue(z: Fe, carry: Word)
    requires 19 * (2 * carry + 1) < BASE
    ensures Val(FoldLimbs(z, carry)) == (Val(z) + B4 * carry) % P
  {
    hide AddLimbs, CanonicalLimbs;
    var high: int := Wrap(z.l3 / TOP + Wrap(2 * carry));
    var low := Fe(z.l0, z.l1, z.l2, z.l3 % TOP);
    var nineteen := Fe(Wrap(19 * high), 0, 0, 0);
    AddLimbsValue(low, nineteen, 0);
    var folded := AddLimbs(low, nineteen, 0).0;
    CanonicalValue(folded);
    TopBit(z, low);
    FoldedRemainder(Val(z) + B4 * carry, high, Val(folded));
  }

  method Fold(z: Fe, carry: Word) returns (r: Fe)
    ensures 19 * (2 * carry + 1) < BASE ==> Val(r) == (Val(z) + B4 * carry) % P
  {
    if 19 * (2 * carry + 1) < BASE {
      FoldValue(z, carry);
    }
    r := FoldLimbs(z, carry);
  }

  /** The value without its top bit. */
  lemma TopBit(z: Fe, low: Fe)
    requires low == Fe(z.l0, z.l1, z.l2, z.l3 % TOP)
    ensures Val(z) == Val(low) + (P + 19) * (z.l3 / TOP)
    ensures Val(low) < P + 19
    ensures z.l3 / TOP <= 1
  {}

  /** A total and its folded form, less than twice the modulus and a multiple of it apart. */
  lemma FoldedRemainder(total: int, high: int, folded: int)
    requires folded + P * high == total
    requires 0 <= folded < 2 * P
    ensures total % P == if folded < P then folded else folded - P
  {
    if folded < P {
      RemainderUnique(P, total, high, folded);
    } else {
      RemainderUnique(P, total, high + 1, folded - P);
    }
  }

  /** The reduced sum of any two 256-bit values. */
  method Add(z: Fe, x: Fe) returns (r: Fe)
    ensures Val(r) == (Val(z) + Val(x)) % P
  {
    var s, carry := AddChain(z, x, 0);
    r := Fold(s, carry);
  }

  /** Subtraction, with the modulus added when it borrowed. The residue is kept exactly when the
      subtrahend exceeds the minuend by at most P; reduced operands give a reduced result. */
  method Sub(z: Fe, x: Fe) returns (r: Fe)
    ensures Cong(P, Val(r), Val(z) - Val(x)) <==> Val(x) <= Val(z) + P
    ensures Val(z) < P && Val(x) < P ==> Val(r) == (Val(z) - Val(x)) % P
    ensures Val(z) >= Val(x) ==> Val(r) == Val(z) - Val(x)
  {
    var d, borrow := SubChain(z, x);
    var c;
    r, c := AddChain(d, if borrow == 1 then FIELD_P else FIELD_ZERO, 0);
    DifferenceResidue(Val(z) - Val(x), Val(r));
  }

  lemma DifferenceResidue(d: int, r: int)
    requires -B4 < d < B4
    requires r == if d >= 0 then d else if d >= -P then d + P else d + P + B4
    ensures Cong(P, r, d) <==> d >= -P
    ensures -P < d < P ==> r == d % P
  {
    if d >= -P {
      CongByMultiple(P, r, d, if d >= 0 then 0 else 1);
      if -P < d < P {
        ModSmall(P, r);
      }
    } else if Cong(P, r, d) {
      var k := CongMultiple(P, r, d);
      assert false;
    }
  }

  /** The additive inverse: the residue is right exactly for the values up to 2P, and reduced
      for every value up to P. */
  method Neg(z: Fe) returns (r: Fe)
    ensures Cong(P, Val(r), -Val(z)) <==> Val(z) <= 2 * P
    ensures Val(z) <= P ==> Val(r) == (-Val(z)) % P
  {
    var minus := Sub(FIELD_P, z);
    r := Select(FIELD_ZERO, minus, z == FIELD_ZERO);
    if z != FIELD_ZERO {
      if Val(z) == 0 {
        ValInjective(z, FIELD_ZERO);
      }
      NegResidue(Val(z), Val(r));
    }
  }

  lemma NegResidue(v: int, r: int)
    requires 0 < v
    requires Cong(P, r, P - v) <==> v <= 2 * P
    requires v <= P ==> r == P - v
    ensures Cong(P, r, -v) <==> v <= 2 * P
    ensures v <= P ==> r == (-v) % P
  {
    CongByMultiple(P, P - v, -v, 1);
    if v <= P {
      ModSmall(P, P - v);
    }
  }

  // ---------------------------------------------------------------------------------------
  // Reduction of 512 bits
  // ---------------------------------------------------------------------------------------

  /** Eight limbs, least significant first. */
  datatype Wide = Wide(t0: Word, t1: Word, t2: Word, t3: Word, t4: Word, t5: Word, t6: Word, t7: Word)

  function Low(t: Wide): Fe {
    Fe(t.t0, t.t1, t.t2, t.t3)
  }

  function High(t: Wide): Fe {
    Fe(t.t4, t.t5, t.t6, t.t7)
  }

  function WideVal(t: Wide): int {
    Val(Low(t)) + B4 * Val(High(t))
  }

  /** What a word adder answers for each operand pair and carry-in. */
  type Adder = (Word, Word, Word) -> (Word, Word)

  /** The adder meets the documented contract of bits.Add64, which leaves every carry-in
      above 1 open. */
  ghost predicate Documented(add: Adder) {
    forall x: Word, y: Word, c: Word :: c <= 1 ==> add(x, y, c) == Add64(x, y, c)
  }

  /** One limb of the fold by 38: the limb, the sum of its two carries, and the high word of its
      product by 38. */
  datatype Stage = Stage(limb: Word, carries: Word, high: Word)

  /** `t` plus 38 times `h` plus what the limb below left over. */
  function FoldLimb(add: Adder, t: Word, h: Word, below: Stage): Stage {
    var (hi, lo) := Mul64(h, 38);
    var (m, c) := Add64(lo, below.high, 0);
    var (r, a) := add(t, m, below.carries);
    Stage(r, Wrap(a + c), hi)
  }

  const NO_STAGE := Stage(0, 0, 0)

  /** The four limbs, lowest first; the third and fourth pass a sum of carries to `add`. */
  function Stage0(t: Wide): Stage {
    FoldLimb(Add64, t.t0, t.t4, NO_STAGE)
  }

  function Stage1(t: Wide): Stage {
    FoldLimb(Add64, t.t1, t.t5, Stage0(t))
  }

  function Stage2(add: Adder, t: Wide): Stage {
    FoldLimb(add, t.t2, t.t6, Stage1(t))
  }

  function Stage3(add: Adder, t: Wide): Stage {
    FoldLimb(add, t.t3, t.t7, Stage2(add, t))
  }

  /** Low half plus 38 times high half, as limbs and a carry. */
  function FoldBy38(add: Adder, t: Wide): (Fe, Word) {
    var s0, s1, s2, s3 := Stage0(t), Stage1(t), Stage2(add, t), Stage3(add, t);
    (Fe(s0.limb, s1.limb, s2.limb, s3.limb), Wrap(s3.high + s3.carries))
  }

  /** The value that the final fold of fieldReduce512 starts from. */
  function FoldedValue(add: Adder, t: Wide): int {
    Val(FoldBy38(add, t).0) + B4 * FoldBy38(add, t).1
  }

  /** The sums of carries at lines 129 and 133 of the source, under exact addition. */
  function CarrySum1(t: Wide): Word {
    Stage1(t).carries
  }

  function CarrySum2(t: Wide): Word {
    Stage2(Add64, t).carries
  }

  /** The low two (three) limbs plus 38 times the matching high limbs. */
  function Partial2(t: Wide): int {
    t.t0 + BASE * t.t1 + 38 * (t.t4 + BASE * t.t5)
  }

  function Partial3(t: Wide): int {
    t.t0 + BASE * t.t1 + B2 * t.t2 + 38 * (t.t4 + BASE * t.t5 + B2 * t.t6)
  }

  /** Both carry sums are 0 or 1, stated on the value alone. */
  predicate WithinContract(t: Wide) {
    && Partial2(t) < B2 * (38 * t.t5 / BASE + 2)
    && Partial3(t) < B3 * (38 * t.t6 / BASE + 2)
  }

  /** One limb under exact addition loses nothing, and its carry sum is at most 2. */
  lemma FoldLimbExact(t: Word, h: Word, below: Stage)
    requires below.carries <= 2 && below.high <= 37
    ensures var s := FoldLimb(Add64, t, h, below);
            && s.limb + BASE * (s.carries + s.high) == t + 38 * h + below.carries + below.high
            && s.carries <= 2 && s.high <= 37 && s.high == 38 * h / BASE
  {
    var (hi, lo) := Mul64(h, 38);
    var (m, c) := Add64(lo, below.high, 0);
    assert c == 1 ==> m <= 36;
  }

  lemma ExactStages(t: Wide)
    ensures var s0, s1, s2, s3 := Stage0(t), Stage1(t), Stage2(Add64, t), Stage3(Add64, t);
            && s0.limb + BASE * (s0.carries + s0.high) == t.t0 + 38 * t.t4
            && s1.limb + BASE * (s1.carries + s1.high) == t.t1 + 38 * t.t5 + s0.carries + s0.high
            && s2.limb + BASE * (s2.carries + s2.high) == t.t2 + 38 * t.t6 + s1.carries + s1.high
            && s3.limb + BASE * (s3.carries + s3.high) == t.t3 + 38 * t.t7 + s2.carries + s2.high
            && s1.high == 38 * t.t5 / BASE && s2.high == 38 * t.t6 / BASE
            && s1.carries <= 2 && s2.carries <= 2 && s3.carries <= 2 && s3.high <= 37
            && s1.high <= 37 && s2.high <= 37
  {
    FoldLimbExact(t.t0, t.t4, NO_STAGE);
    FoldLimbExact(t.t1, t.t5, Stage0(t));
    FoldLimbExact(t.t2, t.t6, Stage1(t));
    FoldLimbExact(t.t3, t.t7, Stage2(Add64, t));
  }

  /** The carry sums never exceed 2. The first reaches 2 exactly when the two low partial
      limbs overflow their high word by 2, the second likewise one limb up. */
  lemma CarrySums(t: Wide)
    ensures CarrySum1(t) <= 2 && CarrySum2(t) <= 2
    ensures CarrySum1(t) == 2 <==> Partial2(t) >= B2 * (38 * t.t5 / BASE + 2)
    ensures CarrySum2(t) == 2 <==> Partial3(t) >= B3 * (38 * t.t6 / BASE + 2)
  {
    ExactStages(t);
  }

  /** With exact addition nothing is lost: limbs and carry are the low half plus 38 times the
      high half. */
  lemma FoldBy38Exact(t: Wide)
    ensures FoldedValue(Add64, t) == Val(Low(t)) + 38 * Val(High(t))
    ensures FoldBy38(Add64, t).1 <= 39
  {
    ExactStages(t);
  }

  /** 2^256 is 38 modulo P, so folding the high half by 38 keeps the remainder. */
  lemma FoldKeepsRemainder(t: Wide, folded: int)
    requires folded == Val(Low(t)) + 38 * Val(High(t))
    ensures folded % P == WideVal(t) % P
  {
    CongByMultiple(P, WideVal(t), folded, 2 * Val(High(t)));
  }

  /** fieldReduce512 over exact addition is the remainder of every 512-bit value. */
  method Reduce512(t: Wide) returns (r: Fe)
    ensures Val(r) == WideVal(t) % P
  {
    FoldBy38Exact(t);
    hide Reduced, FoldedValue, FoldBy38;
    ReducedValue(Add64, t);
    FoldKeepsRemainder(t, FoldedValue(Add64, t));
    r := Reduced(Add64, t);
  }

  /** What fieldReduce512 returns over `add`. In the final fold every carry-in is 0 or 1, where all
      documented adders agree. */
  function Reduced(add: Adder, t: Wide): Fe {
    FoldLimbs(FoldBy38(add, t).0, FoldBy38(add, t).1)
  }

  /** The limbs returned are the remainder of `t`. */
  ghost predicate Reduces(add: Adder, t: Wide) {
    Val(Reduced(add, t)) == WideVal(t) % P
  }

  lemma ReducedValue(add: Adder, t: Wide)
    requires FoldedValue(add, t) <= Val(Low(t)) + 38 * Val(High(t))
    ensures Val(Reduced(add, t)) == FoldedValue(add, t) % P
  {
    hide FoldBy38, FoldLimbs;
    var (r, carry) := FoldBy38(add, t);
    assert carry <= 39;
    FoldValue(r, carry);
  }

  /** Where both carry sums stay at 0 or 1, every adder that meets its documented contract
      folds to the same limbs as exact addition. */
  lemma SameFold(add: Adder, t: Wide)
    requires Documented(add) && CarrySum1(t) <= 1 && CarrySum2(t) <= 1
    ensures FoldBy38(add, t) == FoldBy38(Add64, t)
  {
    SameLimb(add, t.t2, t.t6, Stage1(t));
    SameLimb(add, t.t3, t.t7, Stage2(Add64, t));
  }

  lemma SameLimb(add: Adder, t: Word, h: Word, below: Stage)
    requires Documented(add) && below.carries <= 1
    ensures FoldLimb(add, t, h, below) == FoldLimb(Add64, t, h, below)
  {}

  lemma ReduceDocumented(add: Adder, t: Wide)
    requires Documented(add) && WithinContract(t)
    ensures Reduces(add, t)
  {
    var folded := Val(Low(t)) + 38 * Val(High(t));
    assert FoldedValue(add, t) == folded by {
      CarrySums(t);
      SameFold(add, t);
      FoldBy38Exact(t);
    }
    hide Reduced, FoldedValue;
    ReducedValue(add, t);
    FoldKeepsRemainder(t, folded);
  }

  /** An adder that sees any nonzero carry-in as a carry flag of 1. */
  function AddFlag(x: Word, y: Word, c: Word): (Word, Word) {
    Add64(x, y, if c == 0 then 0 else 1)
  }

  lemma FoldLimbFlag(t: Word, h: Word, below: Stage)
    requires below.carries <= 2 && below.high <= 37
    ensures var s := FoldLimb(AddFlag, t, h, below);
            && s.limb + BASE * (s.carries + s.high)
               == t + 38 * h + below.carries + below.high - (if below.carries == 2 then 1 else 0)
            && s.carries <= 2 && s.high <= 37
            && (below.carries <= 1 ==> s == FoldLimb(Add64, t, h, below))
  {
    var (hi, lo) := Mul64(h, 38);
    var (m, c) := Add64(lo, below.high, 0);
    assert c == 1 ==> m <= 36;
  }

  lemma FlagStages(t: Wide)
    ensures var s1, s2, s3 := Stage1(t), Stage2(AddFlag, t), Stage3(AddFlag, t);
            && s2.limb + BASE * (s2.carries + s2.high)
               == t.t2 + 38 * t.t6 + s1.carries + s1.high - (if s1.carries == 2 then 1 else 0)
            && s3.limb + BASE * (s3.carries + s3.high)
               == t.t3 + 38 * t.t7 + s2.carries + s2.high - (if s2.carries == 2 then 1 else 0)
            && s3.carries <= 2 && s3.high <= 37
            && (s1.carries <= 1 ==> s2 == Stage2(Add64, t))
  {
    ExactStages(t);
    FoldLimbFlag(t.t2, t.t6, Stage1(t));
    FoldLimbFlag(t.t3, t.t7, Stage2(AddFlag, t));
  }

  /** The flag adder loses 2^128 (2^192) for each carry sum of 2 that it meets. */
  lemma FoldBy38Flag(t: Wide)
    ensures FoldedValue(AddFlag, t) == Val(Low(t)) + 38 * Val(High(t))
               - (if CarrySum1(t) == 2 then B2 else 0)
               - (if Stage2(AddFlag, t).carries == 2 then B3 else 0)
    ensures CarrySum1(t) <= 1 ==> Stage2(AddFlag, t).carries == CarrySum2(t)
  {
    hide FoldLimb;
    var s1, s2 := Stage1(t), Stage2(AddFlag, t);
    ExactStages(t);
    FlagStages(t);
    StageSum(t, Stage0(t), s1, s2, Stage3(AddFlag, t),
             if s1.carries == 2 then 1 else 0, if s2.carries == 2 then 1 else 0);
  }

  lemma StageSum(t: Wide, s0: Stage, s1: Stage, s2: Stage, s3: Stage, e2: int, e3: int)
    requires s0.limb + BASE * (s0.carries + s0.high) == t.t0 + 38 * t.t4
    requires s1.limb + BASE * (s1.carries + s1.high) == t.t1 + 38 * t.t5 + s0.carries + s0.high
    requires s2.limb + BASE * (s2.carries + s2.high) == t.t2 + 38 * t.t6 + s1.carries + s1.high - e2
    requires s3.limb + BASE * (s3.carries + s3.high) == t.t3 + 38 * t.t7 + s2.carries + s2.high - e3
    ensures Val(Fe(s0.limb, s1.limb, s2.limb, s3.limb)) + B4 * (s3.high + s3.carries)
            == Val(Low(t)) + 38 * Val(High(t)) - B2 * e2 - B3 * e3
  {}

  lemma DifferentRemainders(a: int, b: int)
    requires 0 < a - b < P
    ensures a % P != b % P
  {
    if a % P == b % P {
      var k := CongMultiple(P, a, b);
      assert false;
    }
  }

  lemma FlagDocumented()
    ensures Documented(AddFlag)
  {}

  /** A documented adder that is wrong on every value outside the contract. */
  lemma ReduceOutside(t: Wide)
    requires !WithinContract(t)
    ensures Documented(AddFlag) && !Reduces(AddFlag, t)
  {
    var exact := Val(Low(t)) + 38 * Val(High(t));
    assert 0 < exact - FoldedValue(AddFlag, t) < P by {
      CarrySums(t);
      FoldBy38Flag(t);
    }
    hide Reduced, FoldedValue;
    ReducedValue(AddFlag, t);
    FoldKeepsRemainder(t, exact);
    DifferentRemainders(exact, FoldedValue(AddFlag, t));
    FlagDocumented();
  }

  /** fieldReduce512 returns the remainder under every adder that meets the documented contract of
      bits.Add64 exactly when both carry sums stay at 0 or 1. */
  lemma ReduceExactly(t: Wide)
    ensures (forall add: Adder :: Documented(add) ==> Reduces(add, t)) <==> WithinContract(t)
  {
    hide Reduces, WithinContract, Documented;
    if WithinContract(t) {
      forall add: Adder | Documented(add)
        ensures Reduces(add, t)
      {
        ReduceDocumented(add, t);
      }
    } else {
      ReduceOutside(t);
    }
  }
}
