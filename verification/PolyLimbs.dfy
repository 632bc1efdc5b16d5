/** Poly1305 field arithmetic: five 26 bit limbs modulo 2^130 - 5, over 64 bit words.

    Words wrap as the machine's do. A lane of an extended word multiplies only the low
    halves of its operands, as the vector instructions do, a scalar multiplies in full.
 */
module PolyLimbs {
  import opened Words

  const B1: nat := 0x400_0000
  const B2: nat := 0x10_0000_0000_0000
  const B3: nat := 0x4000_0000_0000_0000_0000
  const B4: nat := 0x1_0000_0000_0000_0000_0000_0000_00
  const PRIME: nat := 0x3_ffff_ffff_ffff_ffff_ffff_ffff_ffff_fffb

  datatype Limbs = Limbs(l0: nat, l1: nat, l2: nat, l3: nat, l4: nat)

  function Value(a: Limbs): nat {
    a.l0 + B1 * a.l1 + B2 * a.l2 + B3 * a.l3 + B4 * a.l4
  }

  /** The limbs left by a partial carry: the second alone may exceed its width. */
  predicate Reduced(a: Limbs) {
    a.l0 < B1 && a.l1 < B1 + 0x400 && a.l2 < B1 && a.l3 < B1 && a.l4 < B1
  }

  /** A reduced accumulator with a message block added. */
  predicate Summed(a: Limbs) {
    a.l0 < 2 * B1 && a.l1 < 2 * B1 + 0x400 && a.l2 < 2 * B1 && a.l3 < 2 * B1 && a.l4 < 2 * B1
  }

  // ---- Word operations ----

  function Mul(lane: bool, a: nat, b: nat): nat {
    if lane then (a % POW32) * (b % POW32) else (a * b) % POW64
  }

  function Add(a: nat, b: nat): nat {
    (a + b) % POW64
  }

  function Shr(a: nat): nat {
    a / B1
  }

  function Mask(a: nat): nat {
    a % B1
  }

  lemma {:induction false} MulExact(lane: bool, a: nat, b: nat)
    requires a < POW32 && b < POW32
    ensures Mul(lane, a, b) == a * b
  {
    MulBound(a, b, POW32 - 1, POW32 - 1);
    var product := a * b;
    assert product % POW64 == product;
  }

  // ---- Multiplication ----

  function Scale(lane: bool, r: Limbs): Limbs {
    Limbs(Mul(lane, r.l0, 5), Mul(lane, r.l1, 5), Mul(lane, r.l2, 5), Mul(lane, r.l3, 5), Mul(lane, r.l4, 5))
  }

  function Dot(lane: bool, a: Limbs, w0: nat, w1: nat, w2: nat, w3: nat, w4: nat): nat {
    var q1 := Add(Mul(lane, a.l0, w0), Mul(lane, a.l1, w1));
    var q2 := Add(Mul(lane, a.l2, w2), Mul(lane, a.l3, w3));
    Add(Add(q1, q2), Mul(lane, a.l4, w4))
  }

  /** The accumulator by r, with s five times r, into unreduced products. */
  function Multiply(lane: bool, a: Limbs, r: Limbs, s: Limbs): Limbs {
    Limbs(Dot(lane, a, r.l0, s.l4, s.l3, s.l2, s.l1),
          Dot(lane, a, r.l1, r.l0, s.l4, s.l3, s.l2),
          Dot(lane, a, r.l2, r.l1, r.l0, s.l4, s.l3),
          Dot(lane, a, r.l3, r.l2, r.l1, r.l0, s.l4),
          Dot(lane, a, r.l4, r.l3, r.l2, r.l1, r.l0))
  }

  lemma {:induction false} ScaleExact(lane: bool, r: Limbs)
    requires Reduced(r)
    ensures Scale(lane, r) == Limbs(5 * r.l0, 5 * r.l1, 5 * r.l2, 5 * r.l3, 5 * r.l4)
  {
    hide Mul;
    FoldExact(lane, r.l0);
    FoldExact(lane, r.l1);
    FoldExact(lane, r.l2);
    FoldExact(lane, r.l3);
    FoldExact(lane, r.l4);
  }

  const W: nat := 5 * (B1 + 0x400)
  const A: nat := 2 * B1 + 0x400

  /** A product of limbs below the bounds is exact, and far below the word. */
  lemma {:induction false} ProductExact(lane: bool, a: nat, w: nat, bound: nat)
    requires a < A && w <= bound <= W
    ensures Mul(lane, a, w) == a * w <= A * bound
  {
    hide Mul;
    MulExact(lane, a, w);
    MulBound(a, w, A, bound);
  }

  lemma {:induction false} SumExact(p0: nat, p1: nat, p2: nat, p3: nat, p4: nat, bound: nat)
    requires p0 <= bound && p1 <= bound && p2 <= bound && p3 <= bound && p4 <= bound && 5 * bound < POW64
    ensures Add(Add(Add(p0, p1), Add(p2, p3)), p4) == p0 + p1 + p2 + p3 + p4 <= 5 * bound
  {
    hide Add;
    AddExact(p0, p1);
    AddExact(p2, p3);
    AddExact(p0 + p1, p2 + p3);
    AddExact(p0 + p1 + p2 + p3, p4);
  }

  lemma {:induction false} DotExact(lane: bool, a: Limbs, w0: nat, w1: nat, w2: nat, w3: nat, w4: nat, bound: nat)
    requires Summed(a) && bound <= W
    requires w0 <= bound && w1 <= bound && w2 <= bound && w3 <= bound && w4 <= bound
    ensures Dot(lane, a, w0, w1, w2, w3, w4) ==
            a.l0 * w0 + a.l1 * w1 + a.l2 * w2 + a.l3 * w3 + a.l4 * w4 <= 5 * (A * bound)
  {
    hide Mul, Add;
    ProductExact(lane, a.l0, w0, bound);
    ProductExact(lane, a.l1, w1, bound);
    ProductExact(lane, a.l2, w2, bound);
    ProductExact(lane, a.l3, w3, bound);
    ProductExact(lane, a.l4, w4, bound);
    SumExact(a.l0 * w0, a.l1 * w1, a.l2 * w2, a.l3 * w3, a.l4 * w4, A * bound);
  }

  /** The products that lie beyond 2^130. */
  ghost function Beyond(a: Limbs, r: Limbs): nat {
    (a.l1 * r.l4 + a.l2 * r.l3 + a.l3 * r.l2 + a.l4 * r.l1) +
    B1 * (a.l2 * r.l4 + a.l3 * r.l3 + a.l4 * r.l2) +
    B2 * (a.l3 * r.l4 + a.l4 * r.l3) +
    B3 * (a.l4 * r.l4)
  }

  lemma {:induction false} Distribute(x: int, r: Limbs)
    ensures x * Value(r) == x * r.l0 + B1 * (x * r.l1) + B2 * (x * r.l2) + B3 * (x * r.l3) + B4 * (x * r.l4)
  {
  }

  lemma {:induction false} DistributeValue(a: Limbs, x: int)
    ensures Value(a) * x == a.l0 * x + B1 * (a.l1 * x) + B2 * (a.l2 * x) + B3 * (a.l3 * x) + B4 * (a.l4 * x)
  {
  }

  lemma {:induction false} Five(x: nat, y: nat, z: nat)
    requires z == 5 * y
    ensures x * z == 5 * (x * y)
  {
  }

  /** Exact products: the value of the result is the product, less a multiple of the prime. */
  lemma {:induction false} MultiplyValue(a: Limbs, r: Limbs, d: Limbs)
    requires d == Limbs(
      a.l0 * r.l0 + 5 * (a.l1 * r.l4) + 5 * (a.l2 * r.l3) + 5 * (a.l3 * r.l2) + 5 * (a.l4 * r.l1),
      a.l0 * r.l1 + a.l1 * r.l0 + 5 * (a.l2 * r.l4) + 5 * (a.l3 * r.l3) + 5 * (a.l4 * r.l2),
      a.l0 * r.l2 + a.l1 * r.l1 + a.l2 * r.l0 + 5 * (a.l3 * r.l4) + 5 * (a.l4 * r.l3),
      a.l0 * r.l3 + a.l1 * r.l2 + a.l2 * r.l1 + a.l3 * r.l0 + 5 * (a.l4 * r.l4),
      a.l0 * r.l4 + a.l1 * r.l3 + a.l2 * r.l2 + a.l3 * r.l1 + a.l4 * r.l0)
    ensures Value(a) * Value(r) == Value(d) + PRIME * Beyond(a, r)
  {
    DistributeValue(a, Value(r));
    Distribute(a.l0, r);
    Distribute(a.l1, r);
    Distribute(a.l2, r);
    Distribute(a.l3, r);
    Distribute(a.l4, r);
  }

  lemma {:induction false} MultiplyExact(lane: bool, a: Limbs, r: Limbs)
    requires Summed(a) && Reduced(r)
    ensures var d := Multiply(lane, a, r, Scale(lane, r));
      Value(a) * Value(r) == Value(d) + PRIME * Beyond(a, r) &&
      d.l0 <= 5 * (A * W) && d.l1 <= 5 * (A * W) && d.l2 <= 5 * (A * W) && d.l3 <= 5 * (A * W) && d.l4 <= A * W
  {
    hide Scale, Dot, Value, Beyond;
    var s, bound := Scale(lane, r), B1 + 0x400;
    ScaleExact(lane, r);
    DotExact(lane, a, r.l0, s.l4, s.l3, s.l2, s.l1, W);
    DotExact(lane, a, r.l1, r.l0, s.l4, s.l3, s.l2, W);
    DotExact(lane, a, r.l2, r.l1, r.l0, s.l4, s.l3, W);
    DotExact(lane, a, r.l3, r.l2, r.l1, r.l0, s.l4, W);
    DotExact(lane, a, r.l4, r.l3, r.l2, r.l1, r.l0, bound);
    Five(a.l1, r.l4, s.l4); Five(a.l2, r.l3, s.l3); Five(a.l3, r.l2, s.l2); Five(a.l4, r.l1, s.l1);
    Five(a.l2, r.l4, s.l4); Five(a.l3, r.l3, s.l3); Five(a.l4, r.l2, s.l2);
    Five(a.l3, r.l4, s.l4); Five(a.l4, r.l3, s.l3);
    Five(a.l4, r.l4, s.l4);
    MultiplyValue(a, r, Multiply(lane, a, r, s));
  }

  // ---- Partial reduction ----

  function Reduce(lane: bool, d: Limbs): Limbs {
    var c0 := Shr(d.l0);
    var d1 := Add(d.l1, c0);
    var c1 := Shr(d1);
    var d2 := Add(d.l2, c1);
    var c2 := Shr(d2);
    var d3 := Add(d.l3, c2);
    var c3 := Shr(d3);
    var d4 := Add(d.l4, c3);
    var c4 := Shr(d4);
    var d0 := Add(Mask(d.l0), Mul(lane, c4, 5));
    var c5 := Shr(d0);
    Limbs(Mask(d0), Add(Mask(d1), c5), Mask(d2), Mask(d3), Mask(d4))
  }

  const D: nat := 0x4000_0000_0000_0000

  /** Carries move value between limbs, and out of the top one back into the bottom. */
  lemma {:induction false} CarryValue(d: Limbs, m0: nat, m1: nat, m2: nat, m3: nat, m4: nat, n0: nat,
                                      c0: nat, c1: nat, c2: nat, c3: nat, c4: nat, c5: nat)
    requires d.l0 == B1 * c0 + m0 && d.l1 + c0 == B1 * c1 + m1 && d.l2 + c1 == B1 * c2 + m2
    requires d.l3 + c2 == B1 * c3 + m3 && d.l4 + c3 == B1 * c4 + m4 && m0 + 5 * c4 == B1 * c5 + n0
    ensures Value(d) == Value(Limbs(n0, m1 + c5, m2, m3, m4)) + PRIME * c4
  {
  }

  lemma {:induction false} AddExact(a: nat, b: nat)
    requires a + b < POW64
    ensures Add(a, b) == a + b
  {
  }

  lemma {:induction false} SplitWord(a: nat)
    ensures a == B1 * Shr(a) + Mask(a) && Mask(a) < B1
  {
  }

  /** A carry is added to a limb without wrapping, and leaves one that is as small. */
  lemma {:induction false} CarryStep(limb: nat, carry: nat)
    requires limb < D && carry < 0x20_0000_0000
    ensures Add(limb, carry) == limb + carry && Shr(limb + carry) < 0x20_0000_0000
    ensures limb + carry == B1 * Shr(limb + carry) + Mask(limb + carry) && Mask(limb + carry) < B1
  {
    hide Shr, Mask, Add;
    AddExact(limb, carry);
    SplitWord(limb + carry);
  }

  /** The carry out of the top limb is folded into the bottom one without wrapping. */
  lemma {:induction false} TopCarry(lane: bool, top: nat, carry: nat, low: nat)
    requires top < 0x800_0000_0000_0000 && (lane ==> top < 0x200_0000_0000_0000) && carry < 0x20_0000_0000 && low < B1
    ensures var c := Shr(top + carry);
      && Mul(lane, c, 5) == 5 * c && Add(low, 5 * c) == low + 5 * c
      && low + 5 * c == B1 * Shr(low + 5 * c) + Mask(low + 5 * c) && Mask(low + 5 * c) < B1
      && Shr(low + 5 * c) < 0x400
  {
    hide Shr, Mask, Add, Mul;
    SplitWord(top + carry);
    FoldExact(lane, Shr(top + carry));
    AddExact(low, 5 * Shr(top + carry));
    SplitWord(low + 5 * Shr(top + carry));
  }

  /** The value is preserved modulo the prime, nothing wraps, and the limbs are reduced again. */
  lemma {:induction false} ReduceExact(lane: bool, d: Limbs) returns (carried: nat)
    requires d.l0 < D && d.l1 < D && d.l2 < D && d.l3 < D
    requires d.l4 < 0x800_0000_0000_0000 && (lane ==> d.l4 < 0x200_0000_0000_0000)
    ensures Reduced(Reduce(lane, d))
    ensures Value(d) == Value(Reduce(lane, d)) + PRIME * carried
  {
    hide Shr, Mask, Add, Mul, Value;
    CarryStep(d.l0, 0);
    var c0 := Shr(d.l0);
    CarryStep(d.l1, c0);
    var c1 := Shr(d.l1 + c0);
    CarryStep(d.l2, c1);
    var c2 := Shr(d.l2 + c1);
    CarryStep(d.l3, c2);
    var c3 := Shr(d.l3 + c2);
    CarryStep(d.l4, c3);
    var c4 := Shr(d.l4 + c3);
    TopCarry(lane, d.l4, c3, Mask(d.l0));
    var c5 := Shr(Mask(d.l0) + 5 * c4);
    AddExact(Mask(d.l1 + c0), c5);
    var m0, m1, m2, m3, m4 := Mask(d.l0), Mask(d.l1 + c0), Mask(d.l2 + c1), Mask(d.l3 + c2), Mask(d.l4 + c3);
    CarryValue(d, m0, m1, m2, m3, m4, Mask(m0 + 5 * c4), c0, c1, c2, c3, c4, c5);
    carried := c4;
  }

  lemma {:induction false} FoldExact(lane: bool, c: nat)
    requires c < 0x4_0000_0000 && (lane ==> c < POW32)
    ensures Mul(lane, c, 5) == 5 * c
  {
  }

  // ---- Congruence modulo the prime ----

  predicate Congruent(a: int, b: int) {
    a % PRIME == b % PRIME
  }

  lemma {:induction false} Multiple(a: int, k: int)
    ensures Congruent(a + PRIME * k, a)
  {
  }

  lemma {:induction false} CongruentSum(a: int, b: int, c: int, d: int)
    requires Congruent(a, b) && Congruent(c, d)
    ensures Congruent(a + c, b + d)
  {
  }

  lemma {:induction false} CongruentProduct(a: int, b: int, c: int)
    requires Congruent(a, b)
    ensures Congruent(a * c, b * c) && Congruent(c * a, c * b)
  {
    var q, r := a / PRIME, b / PRIME;
    assert a == PRIME * q + a % PRIME && b == PRIME * r + b % PRIME;
    var rest := a % PRIME;
    assert a * c == rest * c + PRIME * (q * c) && b * c == rest * c + PRIME * (r * c) by {
      assert (PRIME * q + rest) * c == PRIME * (q * c) + rest * c;
      assert (PRIME * r + rest) * c == PRIME * (r * c) + rest * c;
    }
    Multiple(rest * c, q * c);
    Multiple(rest * c, r * c);
    assert c * a == a * c && c * b == b * c;
  }

  /** One step of the accumulator: multiply by r and reduce, scalar or in a lane. */
  function Step(lane: bool, a: Limbs, r: Limbs): Limbs {
    Reduce(lane, Multiply(lane, a, r, Scale(lane, r)))
  }

  lemma {:induction false} StepCongruent(lane: bool, a: Limbs, r: Limbs)
    requires Summed(a) && Reduced(r)
    ensures Reduced(Step(lane, a, r))
    ensures Congruent(Value(Step(lane, a, r)), Value(a) * Value(r))
  {
    hide Multiply, Scale, Reduce, Value, Beyond;
    MultiplyExact(lane, a, r);
    var d := Multiply(lane, a, r, Scale(lane, r));
    var carried := ReduceExact(lane, d);
    Multiple(Value(d), Beyond(a, r));
    Multiple(Value(Reduce(lane, d)), carried);
  }

  function Plus(a: Limbs, b: Limbs): Limbs {
    Limbs(Add(a.l0, b.l0), Add(a.l1, b.l1), Add(a.l2, b.l2), Add(a.l3, b.l3), Add(a.l4, b.l4))
  }

  /** Limbs of a message block. */
  predicate Loaded(m: Limbs) {
    m.l0 < B1 && m.l1 < B1 && m.l2 < B1 && m.l3 < B1 && m.l4 < B1
  }

  lemma {:induction false} PlusExact(a: Limbs, m: Limbs)
    requires Reduced(a) && Loaded(m)
    ensures Summed(Plus(a, m)) && Value(Plus(a, m)) == Value(a) + Value(m)
  {
    hide Add;
    AddExact(a.l0, m.l0);
    AddExact(a.l1, m.l1);
    AddExact(a.l2, m.l2);
    AddExact(a.l3, m.l3);
    AddExact(a.l4, m.l4);
  }

  // ---- Message blocks ----

  /** The limb of a block: a 26 bit field, but for the top one which is short and takes the high bit. */
  function Load(b: seq<byte>, hibit: nat): Limbs
    requires |b| == 16
  {
    Limbs(LittleEndian(b[0..4]) / 1 % B1,
          LittleEndian(b[3..7]) / 4 % B1,
          LittleEndian(b[6..10]) / 16 % B1,
          LittleEndian(b[9..13]) / 64 % B1,
          BitOr(LittleEndian(b[12..16]) / 256, hibit))
  }

  const HIGH_BIT: nat := 0x100_0000

  lemma {:induction false} LoadExact(b: seq<byte>, hibit: nat)
    requires |b| == 16 && (hibit == HIGH_BIT || hibit == 0)
    ensures Loaded(Load(b, hibit))
    ensures Value(Load(b, hibit)) == LittleEndian(b) + B4 * hibit
  {
    hide LittleEndian, BitOr, Value;
    var m := Load(b, hibit);
    Field1(b[0..4]);
    Field4(b[3..7]);
    Field16(b[6..10]);
    Field64(b[9..13]);
    Field256(b[12..16]);
    TopLimb(LittleEndian(b[12..16]) / 256, hibit);
    LoadTiles(b, m, hibit);
  }

  lemma {:induction false} Field1(b: seq<byte>)
    requires |b| == 4
    ensures LittleEndian(b) / 1 % B1 == b[0] as int + 0x100 * b[1] as int + 0x1_0000 * b[2] as int + 0x100_0000 * (b[3] % 4) as int
  {
    hide LittleEndian;
    LittleEndianFour(b);
  }

  lemma {:induction false} Field4(b: seq<byte>)
    requires |b| == 4
    ensures LittleEndian(b) / 4 % B1 == b[0] / 4 + 0x40 * b[1] as int + 0x4000 * b[2] as int + 0x40_0000 * (b[3] % 16) as int
  {
    hide LittleEndian;
    LittleEndianFour(b);
    var low := b[0] / 4 + 0x40 * b[1] as int + 0x4000 * b[2] as int + 0x40_0000 * (b[3] % 16) as int;
    var high: int := b[3] / 16;
    assert b[0] as int == 4 * (b[0] / 4) + b[0] % 4 && b[3] as int == 16 * high + b[3] % 16;
    assert LittleEndian(b) == 4 * (low + B1 * high) + b[0] % 4;
    assert LittleEndian(b) / 4 == low + B1 * high;
  }

  lemma {:induction false} Field16(b: seq<byte>)
    requires |b| == 4
    ensures LittleEndian(b) / 16 % B1 == b[0] / 16 + 0x10 * b[1] as int + 0x1000 * b[2] as int + 0x10_0000 * (b[3] % 64) as int
  {
    hide LittleEndian;
    LittleEndianFour(b);
    var low := b[0] / 16 + 0x10 * b[1] as int + 0x1000 * b[2] as int + 0x10_0000 * (b[3] % 64) as int;
    var high: int := b[3] / 64;
    assert b[0] as int == 16 * (b[0] / 16) + b[0] % 16 && b[3] as int == 64 * high + b[3] % 64;
    assert LittleEndian(b) == 16 * (low + B1 * high) + b[0] % 16;
    assert LittleEndian(b) / 16 == low + B1 * high;
  }

  lemma {:induction false} Field64(b: seq<byte>)
    requires |b| == 4
    ensures LittleEndian(b) / 64 % B1 == b[0] / 64 + 4 * b[1] as int + 0x400 * b[2] as int + 0x4_0000 * b[3] as int
  {
    hide LittleEndian;
    LittleEndianFour(b);
  }

  lemma {:induction false} Field256(b: seq<byte>)
    requires |b| == 4
    ensures LittleEndian(b) / 256 == b[1] as int + 0x100 * b[2] as int + 0x1_0000 * b[3] as int
  {
    hide LittleEndian;
    LittleEndianFour(b);
  }

  /** The fields of the limbs tile the bytes of the block. */
  lemma {:induction false} LoadTiles(b: seq<byte>, m: Limbs, hibit: nat)
    requires |b| == 16
    requires m.l0 == b[0] as int + 0x100 * b[1] as int + 0x1_0000 * b[2] as int + 0x100_0000 * (b[3] % 4) as int
    requires m.l1 == b[3] / 4 + 0x40 * b[4] as int + 0x4000 * b[5] as int + 0x40_0000 * (b[6] % 16) as int
    requires m.l2 == b[6] / 16 + 0x10 * b[7] as int + 0x1000 * b[8] as int + 0x10_0000 * (b[9] % 64) as int
    requires m.l3 == b[9] / 64 + 4 * b[10] as int + 0x400 * b[11] as int + 0x4_0000 * b[12] as int
    requires m.l4 == b[13] as int + 0x100 * b[14] as int + 0x1_0000 * b[15] as int + hibit
    ensures Value(m) == LittleEndian(b) + B4 * hibit
  {
    hide LittleEndian;
    LittleEndianSixteen(b);
    LittleEndianFour(b[0..4]);
    LittleEndianFour(b[4..8]);
    LittleEndianFour(b[8..12]);
    LittleEndianFour(b[12..16]);
    assert b[3] == 4 * (b[3] / 4) + b[3] % 4 && b[6] == 16 * (b[6] / 16) + b[6] % 16 && b[9] == 64 * (b[9] / 64) + b[9] % 64;
  }

  lemma {:induction false} TopLimb(low: nat, hibit: nat)
    requires low < HIGH_BIT && (hibit == HIGH_BIT || hibit == 0)
    ensures BitOr(low, hibit) == low + hibit
  {
    Pow2At24();
    OrDisjoint(low, hibit / HIGH_BIT, 24);
    ShiftIsProduct(hibit / HIGH_BIT, 24);
  }

  lemma {:induction false} Pow2At24()
    ensures Pow2(24) == HIGH_BIT
  {
    assert Pow2(6) == 64;
    assert Pow2(12) == 64 * Pow2(6);
    assert Pow2(18) == 64 * Pow2(12);
    assert Pow2(24) == 64 * Pow2(18);
  }

  lemma {:induction false} LittleEndianSixteen(b: seq<byte>)
    requires |b| == 16
    ensures LittleEndian(b) == LittleEndian(b[0..4]) + 0x1_0000_0000 * LittleEndian(b[4..8]) +
            0x1_0000_0000_0000_0000 * LittleEndian(b[8..12]) +
            0x1_0000_0000_0000_0000_0000_0000 * LittleEndian(b[12..16])
  {
    hide LittleEndian;
    assert Pow256(4) == 0x1_0000_0000;
    LittleEndianAppend(b[0..4], b[4..16]);
    LittleEndianAppend(b[4..8], b[8..16]);
    LittleEndianAppend(b[8..12], b[12..16]);
    assert b == b[0..4] + b[4..16] && b[4..16] == b[4..8] + b[8..16] && b[8..16] == b[8..12] + b[12..16];
  }
}
