/** X25519: field operations on limb arrays in place, and the Montgomery ladder built on them. */
module X25519 {
  import opened Words
  import opened Field25519

  // ---- What limb arrays denote ----

  ghost function Element(a: array<int64>): (r: int)
    requires a.Length == LIMBS
    reads a
    ensures 0 <= r < P
  {
    Residue(Value(a[..]))
  }

  ghost predicate IsReduced(a: array<int64>)
    reads a
  {
    a.Length == LIMBS && Reduced(a[..])
  }

  /** A bound that holds of reduced limbs and of their sums and differences. */
  const LOOSE: int := 0x4_0000

  ghost predicate IsLoose(a: array<int64>)
    reads a
  {
    a.Length == LIMBS && Within(a[..], LOOSE)
  }

  lemma {:induction false} ReducedIsLoose(a: array<int64>)
    requires IsReduced(a)
    ensures IsLoose(a)
  {
    var s := a[..];
    assert Within(s, LOOSE);
  }

  // ---- Carry ----

  /** Limbs of which those below an index have been carried into those above. */
  ghost predicate Carrying(out: seq<int>, s: seq<int>, index: nat)
    requires |out| == |s| == LIMBS && index < LIMBS
  {
    && (forall k :: 0 <= k < index ==> out[k] == DigitAt(s, k))
    && out[index] == s[index] + CarryAt(s, index)
    && (forall k :: index < k < LIMBS ==> out[k] == s[k])
  }

  ghost function Carried(out: seq<int>, index: nat): seq<int>
    requires |out| == LIMBS && index < LIMBS
  {
    var carried := (out[index] + RADIX) / RADIX;
    var next := out[index := out[index] + RADIX - carried * RADIX];
    if index < LIMBS - 1 then next[index + 1 := out[index + 1] + (carried - 1)]
    else next[0 := out[0] + (carried - 1) * FOLD]
  }

  lemma {:induction false} CarryingNext(out: seq<int>, s: seq<int>, index: nat)
    requires |out| == |s| == LIMBS && index < LIMBS && Carrying(out, s, index)
    ensures index < LIMBS - 1 ==> Carrying(Carried(out, index), s, index + 1)
    ensures index == LIMBS - 1 ==> Carried(out, index) == Carry(s)
  {
    CarryUnique(s, index, out[index] + RADIX);
    hide CarryAt, DigitAt;
  }

  method CarryLimb(out: array<int64>, index: nat)
    requires out.Length == LIMBS && index < LIMBS && FitsCarry(out[..], index)
    modifies out
    ensures out[..] == Carried(old(out[..]), index)
  {
    out[index] := out[index] + RADIX;
    var carried := out[index] / RADIX;
    if index < LIMBS - 1 {
      out[index + 1] := out[index + 1] + (carried - 1);
    } else {
      out[0] := out[0] + (carried - 1) * FOLD;
    }
    out[index] := out[index] - carried * RADIX;
  }

  method CarryPass(out: array<int64>)
    requires out.Length == LIMBS && Within(out[..], WIDE)
    modifies out
    ensures out[..] == Carry(old(out[..]))
  {
    ghost var s: seq<int> := out[..];
    var index: nat := 0;
    while index < LIMBS
      invariant index <= LIMBS
      invariant if index < LIMBS then Carrying(out[..], s, index) else out[..] == Carry(s)
    {
      hide CarryAt, DigitAt, Carry, Carrying, Carried, FitsCarry, Within;
      CarryingNext(out[..], s, index);
      CarryingBounded(out[..], s, index);
      CarryLimb(out, index);
      index := index + 1;
    }
  }

  /** Whether no word overflows when a limb is carried. */
  ghost predicate FitsCarry(out: seq<int>, index: nat)
    requires |out| == LIMBS && index < LIMBS
  {
    && -WIDE - CARRIED <= out[index] <= WIDE + CARRIED
    && -CARRIED <= (out[index] + RADIX) / RADIX - 1 <= CARRIED
    && (index < LIMBS - 1 ==> -WIDE <= out[index + 1] <= WIDE)
    && (index > 0 ==> 0 <= out[0] < RADIX)
  }

  lemma {:induction false} CarryingBounded(out: seq<int>, s: seq<int>, index: nat)
    requires Within(s, WIDE) && |out| == LIMBS && index < LIMBS && Carrying(out, s, index)
    ensures FitsCarry(out, index)
  {
    SplitLimb(s, 0);
    CarryBounded(s, index);
    CarryBounded(s, index + 1);
    CarryUnique(s, index, out[index] + RADIX);
    hide CarryAt, DigitAt;
  }

  lemma {:induction false} CarryUnique(s: seq<int>, i: nat, x: int)
    requires i < |s| && x == s[i] + CarryAt(s, i) + RADIX
    ensures x / RADIX == CarryAt(s, i + 1) + 1 && x - (x / RADIX) * RADIX == DigitAt(s, i)
  {
  }

  // ---- Sums ----

  /** The value of limbs that are sums of limbs. */
  lemma {:induction false} ValueLinear(r: seq<int>, s: seq<int>, t: seq<int>, scale: int)
    requires |r| == |s| == |t|
    requires forall i :: 0 <= i < |r| ==> r[i] == s[i] + scale * t[i]
    ensures Value(r) == Value(s) + scale * Value(t)
    decreases |r|
  {
    if r != [] {
      ValueLinear(r[1..], s[1..], t[1..], scale);
      Scaled(scale, t[0], Value(t[1..]));
    }
  }

  lemma {:induction false} Scaled(scale: int, low: int, high: int)
    ensures scale * (low + RADIX * high) == scale * low + RADIX * (scale * high)
  {
  }

  method Add(out: array<int64>, a: array<int64>, b: array<int64>)
    requires out.Length == LIMBS && IsReduced(a) && IsReduced(b)
    modifies out
    ensures IsLoose(out) && Element(out) == FieldAdd(old(Element(a)), old(Element(b)))
  {
    ghost var s, t := a[..], b[..];
    ghost var s', t': seq<int> := s, t;
    var index: nat := 0;
    while index < LIMBS
      invariant index <= LIMBS
      invariant forall k :: 0 <= k < index ==> out[k] == s[k] as int + t[k] as int
      invariant forall k :: index <= k < LIMBS ==> a[k] == s[k] && b[k] == t[k]
    {
      out[index] := a[index] + b[index];
      index := index + 1;
    }
    ValueLinear(out[..], s', t', 1);
    ResidueAdd(Value(s), Value(t));
  }

  method Subtract(out: array<int64>, a: array<int64>, b: array<int64>)
    requires out.Length == LIMBS && IsReduced(a) && IsReduced(b)
    modifies out
    ensures IsLoose(out) && Element(out) == FieldSubtract(old(Element(a)), old(Element(b)))
  {
    ghost var s, t := a[..], b[..];
    ghost var s', t': seq<int> := s, t;
    var index: nat := 0;
    while index < LIMBS
      invariant index <= LIMBS
      invariant forall k :: 0 <= k < index ==> out[k] == s[k] as int - t[k] as int
      invariant forall k :: index <= k < LIMBS ==> a[k] == s[k] && b[k] == t[k]
    {
      out[index] := a[index] - b[index];
      index := index + 1;
    }
    ValueLinear(out[..], s', t', -1);
    ResidueAdd(Value(s), Value(t));
  }

  // ---- Products ----

  lemma {:induction false} ShiftScale(x: int, y: int, limbs: nat)
    ensures x * Shift(y, limbs) == Shift(x * y, limbs)
  {
    if limbs > 0 {
      ShiftScale(x, y, limbs - 1);
      assert x * (RADIX * Shift(y, limbs - 1)) == RADIX * (x * Shift(y, limbs - 1));
    }
  }

  /** One more limb of a factor. */
  lemma {:induction false} ValueNext(s: seq<int>, k: nat)
    requires k < |s|
    ensures Value(s[..k + 1]) == Value(s[..k]) + Shift(s[k], k)
  {
    ValueAppend(s[..k], [s[k]]);
    assert s[..k + 1] == s[..k] + [s[k]];
    assert Value([s[k]]) == s[k] + RADIX * Value([]);
  }

  lemma {:induction false} RowNext(x: int, b: seq<int>, i: nat, j: nat)
    requires j < |b|
    ensures Shift(x * Value(b[..j + 1]), i) == Shift(x * Value(b[..j]), i) + Shift(x * b[j], i + j)
  {
    ValueNext(b, j);
    ShiftScale(x, b[j], j);
    assert x * Value(b[..j + 1]) == x * Value(b[..j]) + x * Shift(b[j], j);
    ShiftSum(x * Value(b[..j]), Shift(x * b[j], j), i);
    ShiftTwice(x * b[j], j, i);
  }

  lemma {:induction false} RowsNext(a: seq<int>, i: nat, b: int)
    requires i < |a|
    ensures Value(a[..i + 1]) * b == Value(a[..i]) * b + Shift(a[i] * b, i)
  {
    ValueNext(a, i);
    ShiftScale(b, a[i], i);
    assert b * a[i] == a[i] * b;
    assert Value(a[..i + 1]) * b == Value(a[..i]) * b + b * Shift(a[i], i);
  }

  const SQUARE: int := 0x10_0000_0000

  lemma {:induction false} ProductBound(x: int, y: int)
    requires -LOOSE <= x <= LOOSE && -LOOSE <= y <= LOOSE
    ensures -SQUARE <= x * y <= SQUARE
  {
    var m: nat, n: nat := if x < 0 then -x else x, if y < 0 then -y else y;
    MulBound(m, n, LOOSE, LOOSE);
    assert x * y == m * n || x * y == -(m * n);
  }

  method AddLimb(product: array<int64>, k: nat, x: int64)
    requires k < product.Length
    requires -0x8000_0000_0000_0000 <= product[k] as int + x as int < 0x8000_0000_0000_0000
    modifies product
    ensures product[..] == old(product[..])[k := old(product[k]) as int + x as int]
    ensures Value(product[..]) == old(Value(product[..])) + Shift(x, k)
  {
    hide Value, Shift;
    ValueUpdate(product[..], k, x);
    product[k] := product[k] + x;
  }

  /** Limbs that differ by at most one product each, and not beyond a row's end. */
  ghost predicate Grown(product: seq<int>, before: seq<int>, from: nat, to: nat)
    requires |product| == |before|
  {
    && (forall k :: 0 <= k < |product| ==> -SQUARE <= product[k] - before[k] <= SQUARE)
    && (forall k :: 0 <= k < |product| && !(from <= k < to) ==> product[k] == before[k])
  }

  lemma {:induction false} GrownNext(product: seq<int>, before: seq<int>, from: nat, to: nat, x: int)
    requires |product| == |before| && from <= to < |product| && Grown(product, before, from, to)
    requires -SQUARE <= x <= SQUARE
    ensures Grown(product[to := product[to] + x], before, from, to + 1)
    ensures product[to] == before[to]
  {
  }

  ghost predicate Bounded(s: seq<int>, bound: int) {
    forall k :: 0 <= k < |s| ==> -bound <= s[k] <= bound
  }

  lemma {:induction false} GrownBounded(product: seq<int>, before: seq<int>, from: nat, to: nat, rows: nat)
    requires |product| == |before| && Grown(product, before, from, to) && Bounded(before, rows * SQUARE)
    ensures Bounded(product, (rows + 1) * SQUARE)
  {
  }

  /** Adds the product of one limb and all the limbs of a factor, in place. */
  method MultiplyRow(product: array<int64>, i: nat, x: int64, b: array<int64>)
    requires product.Length == 2 * LIMBS - 1 && b != product && i < LIMBS
    requires -LOOSE <= x <= LOOSE && IsLoose(b)
    requires Bounded(product[..], i * SQUARE)
    modifies product
    ensures Value(product[..]) == old(Value(product[..])) + Shift(x * Value(b[..]), i)
    ensures Bounded(product[..], (i + 1) * SQUARE)
  {
    ghost var s: seq<int>, p: seq<int> := b[..], product[..];
    assert Value(s[..0]) == 0 && x * 0 == 0 && Shift(0, i) == 0 by {
      ShiftZero(i);
    }
    var j: nat := 0;
    while j < LIMBS
      invariant j <= LIMBS
      invariant Value(product[..]) == Value(p) + Shift(x * Value(s[..j]), i)
      invariant Grown(product[..], p, i, i + j)
    {
      hide Value, Shift, Grown;
      ProductBound(x, b[j]);
      RowNext(x, s, i, j);
      GrownNext(product[..], p, i, i + j, x * b[j]);
      assert -(i * SQUARE) <= p[i + j] <= i * SQUARE;
      AddLimb(product, i + j, x * b[j]);
      j := j + 1;
    }
    assert s[..LIMBS] == s;
    GrownBounded(product[..], p, i, i + LIMBS, i);
  }

  lemma {:induction false} ShiftZero(limbs: nat)
    ensures Shift(0, limbs) == 0
  {
    if limbs > 0 {
      ShiftZero(limbs - 1);
    }
  }

  /** The full product of two fields, twice as long less one. */
  method MultiplyLimbs(a: array<int64>, b: array<int64>) returns (product: array<int64>)
    requires IsLoose(a) && IsLoose(b)
    ensures fresh(product) && product.Length == 2 * LIMBS - 1
    ensures Value(product[..]) == Value(a[..]) * Value(b[..])
    ensures Bounded(product[..], 16 * SQUARE)
  {
    product := new int64[2 * LIMBS - 1](_ => 0);
    ghost var s: seq<int>, t: seq<int> := a[..], b[..];
    ValueZero(2 * LIMBS - 1);
    assert product[..] == seq(2 * LIMBS - 1, _ => 0);
    assert Value(s[..0]) == 0;
    var i: nat := 0;
    while i < LIMBS
      invariant i <= LIMBS
      invariant Value(product[..]) == Value(s[..i]) * Value(t)
      invariant Bounded(product[..], i * SQUARE)
    {
      hide Value, Shift, Bounded;
      MultiplyRow(product, i, a[i], b);
      RowsNext(s, i, Value(t));
      i := i + 1;
    }
    assert s[..LIMBS] == s;
  }

  /** The value with its upper limbs folded. */
  lemma {:induction false} FoldValue(product: seq<int>, out: seq<int>)
    requires |product| == 2 * LIMBS - 1 && |out| == LIMBS && out[LIMBS - 1] == product[LIMBS - 1]
    requires forall k :: 0 <= k < LIMBS - 1 ==> out[k] == product[k] + product[k + LIMBS] * FOLD
    ensures Residue(Value(out)) == Residue(Value(product))
  {
    var low, high := product[..LIMBS], product[LIMBS..];
    assert product == low + high;
    ValueAppend(low, high);
    ShiftAll(Value(high));
    ValueAppend(high, [0]);
    assert Value([0]) == 0 + RADIX * Value([]);
    ShiftZero(LIMBS - 1);
    ValueLinear(out, low, high + [0], FOLD);
    ResidueShift(Value(out), 2 * Value(high));
  }

  method FoldLimbs(product: array<int64>, out: array<int64>)
    requires product.Length == 2 * LIMBS - 1 && out.Length == LIMBS && out != product
    requires Bounded(product[..], 16 * SQUARE)
    modifies product, out
    ensures Within(out[..], WIDE)
    ensures Residue(Value(out[..])) == Residue(Value(old(product[..])))
  {
    hide Value, Residue;
    ghost var p: seq<int> := product[..];
    var index: nat := 0;
    while index < LIMBS - 1
      invariant index <= LIMBS - 1
      invariant forall k :: 0 <= k < index ==> product[k] == p[k] + p[k + LIMBS] * FOLD
      invariant forall k :: index <= k < product.Length ==> product[k] == p[k]
    {
      product[index] := product[index] + product[index + LIMBS] * FOLD;
      index := index + 1;
    }
    index := 0;
    while index < LIMBS
      invariant index <= LIMBS
      invariant forall k :: 0 <= k < index ==> out[k] == product[k]
      modifies out
    {
      out[index] := product[index];
      index := index + 1;
    }
    FoldValue(p, out[..]);
    FoldBound(p, out[..]);
  }

  lemma {:induction false} FoldBound(product: seq<int>, out: seq<int>)
    requires |product| == 2 * LIMBS - 1 && |out| == LIMBS && out[LIMBS - 1] == product[LIMBS - 1]
    requires Bounded(product, 16 * SQUARE)
    requires forall k :: 0 <= k < LIMBS - 1 ==> out[k] == product[k] + product[k + LIMBS] * FOLD
    ensures Within(out, WIDE)
  {
    forall k | 0 <= k < LIMBS
      ensures -WIDE <= out[k] <= WIDE
    {
      if k < LIMBS - 1 {
        assert -(16 * SQUARE) <= product[k + LIMBS] <= 16 * SQUARE;
      }
    }
  }

  /** Two passes of carries reduce. */
  method CarryPasses(out: array<int64>)
    requires out.Length == LIMBS && Within(out[..], WIDE)
    modifies out
    ensures IsReduced(out) && Element(out) == old(Element(out))
  {
    hide Carry, Reduced, Within, Value, Residue;
    ghost var s: seq<int> := out[..];
    CarryTwice(s);
    CarryKeeps(s);
    CarryPass(out);
    CarryKeeps(Carry(s));
    CarryPass(out);
  }

  method Multiply(out: array<int64>, a: array<int64>, b: array<int64>)
    requires out.Length == LIMBS && IsLoose(a) && IsLoose(b)
    modifies out
    ensures IsReduced(out) && Element(out) == FieldMultiply(old(Element(a)), old(Element(b)))
  {
    hide Value, Residue, Reduced, Within;
    ResidueMultiply(Value(a[..]), Value(b[..]));
    var product := MultiplyLimbs(a, b);
    FoldLimbs(product, out);
    CarryPasses(out);
  }

  // ---- Selection ----

  /** Sixty-four bit words in two's complement. */
  function Word(x: int64): (w: nat)
    ensures w < 0x1_0000_0000_0000_0000
  {
    if x < 0 then x + 0x1_0000_0000_0000_0000 else x
  }

  function Signed(w: nat): (x: int64)
    requires w < 0x1_0000_0000_0000_0000
    ensures Word(x) == w
  {
    if w >= 0x8000_0000_0000_0000 then w - 0x1_0000_0000_0000_0000 else w
  }

  function Xor64(a: int64, b: int64): int64 {
    Pow2At64();
    XorBound(Word(a), Word(b), 64);
    Signed(BitXor(Word(a), Word(b)))
  }

  function And64(a: int64, b: int64): int64 {
    AndBound(Word(a), Word(b));
    Signed(BitAnd(Word(a), Word(b)))
  }

  lemma {:induction false} SelectLimb(p: int64, q: int64, bit: int64)
    requires bit == 0 || bit == 1
    ensures var swap := And64(-bit, Xor64(p, q));
      Xor64(p, swap) == (if bit == 1 then q else p) && Xor64(q, swap) == (if bit == 1 then p else q)
  {
    hide BitAnd, BitXor;
    Pow2At64();
    var x := BitXor(Word(p), Word(q));
    XorBound(Word(p), Word(q), 64);
    XorCommutes(Word(p), Word(q));
    XorCancels(Word(p), Word(q));
    XorCancels(Word(q), Word(p));
    XorCommutes(Word(p), x);
    XorCommutes(Word(q), x);
    if bit == 1 {
      AndOnes(x, 64);
      AndCommutes(x, Word(-1));
    } else {
      AndZero(x);
      XorZero(Word(p));
      XorZero(Word(q));
    }
  }

  lemma {:induction false} AndZero(a: nat)
    ensures BitAnd(0, a) == 0
  {
  }

  lemma {:induction false} XorZero(a: nat)
    ensures BitXor(a, 0) == a
  {
  }

  lemma {:induction false} XorCommutes(a: nat, b: nat)
    ensures BitXor(a, b) == BitXor(b, a)
    decreases a + b
  {
    if a > 0 && b > 0 {
      XorCommutes(a / 2, b / 2);
    }
  }

  lemma {:induction false} AndCommutes(a: nat, b: nat)
    ensures BitAnd(a, b) == BitAnd(b, a)
  {
    if a > 0 && b > 0 {
      AndCommutes(a / 2, b / 2);
    }
  }

  /** Conditional swap without a branch. */
  method Select(p: array<int64>, q: array<int64>, bit: int64)
    requires p.Length == LIMBS && q.Length == LIMBS && p != q && (bit == 0 || bit == 1)
    modifies p, q
    ensures p[..] == (if bit == 1 then old(q[..]) else old(p[..]))
    ensures q[..] == (if bit == 1 then old(p[..]) else old(q[..]))
  {
    hide And64, Xor64;
    var mask := -bit;
    var index: nat := 0;
    while index < LIMBS
      invariant index <= LIMBS
      invariant forall k :: 0 <= k < index ==> p[k] == (if bit == 1 then old(q[k]) else old(p[k]))
      invariant forall k :: 0 <= k < index ==> q[k] == (if bit == 1 then old(p[k]) else old(q[k]))
      invariant forall k :: index <= k < LIMBS ==> p[k] == old(p[k]) && q[k] == old(q[k])
    {
      SelectLimb(p[index], q[index], bit);
      var swap := And64(mask, Xor64(p[index], q[index]));
      p[index] := Xor64(p[index], swap);
      q[index] := Xor64(q[index], swap);
      index := index + 1;
    }
  }

  // ---- Inversion ----

  ghost function FieldPower(x: int, n: nat): int {
    Residue(Power(x, n))
  }

  lemma {:induction false} PowerStep(x: int, n: nat)
    requires 0 <= x < P
    ensures FieldPower(x, 1) == x
    ensures FieldPower(x, 2 * n) == FieldMultiply(FieldPower(x, n), FieldPower(x, n))
    ensures FieldPower(x, 2 * n + 1) == FieldMultiply(FieldPower(x, 2 * n), x)
  {
    assert Power(x, 1) == x * Power(x, 0) == x;
    ResidueUnique(x, 0, x);
    PowerSum(x, n, n);
    ResidueMultiply(Power(x, n), Power(x, n));
    assert Power(x, 2 * n + 1) == x * Power(x, 2 * n) == Power(x, 2 * n) * x;
    ResidueMultiply(Power(x, 2 * n), x);
    hide Residue;
  }

  /** The exponent reached when the bits at and above an index have been taken. */
  ghost function ExponentAt(index: nat): nat
    requires index <= 254
    decreases 254 - index
  {
    if index == 254 then 1
    else 2 * ExponentAt(index + 1) + (if index != 2 && index != 4 then 1 else 0)
  }

  lemma {:induction false} ExponentIs(index: nat)
    requires index <= 254
    ensures ExponentAt(index) + 1 + (if index <= 4 then Pow2(4 - index) else 0) +
            (if index <= 2 then Pow2(2 - index) else 0) == Pow2(255 - index)
    decreases 254 - index
  {
    if index == 254 {
      assert Pow2(1) == 2 * Pow2(0);
    } else {
      ExponentIs(index + 1);
      assert Pow2(0) == 1;
    }
  }

  /** The chain of squares and products raises to two less than the prime. */
  lemma {:induction false} ExponentExact()
    ensures ExponentAt(0) == P - 2
  {
    hide ExponentAt;
    ExponentIs(0);
    assert Pow2(4) == 16 && Pow2(2) == 4;
    Pow2At255();
    hide Pow2;
  }

  lemma {:induction false} Pow2At255()
    ensures Pow2(255) == P + 19
  {
    assert Pow2(256) == 2 * Pow2(255);
    hide Pow2;
    Pow2At64();
    Pow2Sum(64, 64);
    Pow2Sum(128, 128);
  }

  method Copy(from: array<int64>) returns (to: array<int64>)
    requires from.Length == LIMBS
    ensures fresh(to) && to[..] == from[..]
  {
    to := new int64[LIMBS](i requires 0 <= i < LIMBS reads from => from[i]);
  }

  method Assign(to: array<int64>, from: array<int64>)
    requires from.Length == to.Length == LIMBS && to != from
    modifies to
    ensures to[..] == from[..]
  {
    forall i | 0 <= i < LIMBS {
      to[i] := from[i];
    }
  }

  method Invert(out: array<int64>, a: array<int64>)
    requires out.Length == LIMBS && IsReduced(a)
    modifies out
    ensures IsReduced(out) && Element(out) == FieldPower(old(Element(a)), P - 2)
  {
    hide Value, Residue, Reduced, Within, FieldPower, FieldMultiply, Pow2;
    ghost var x := Element(a);
    var c := Copy(a);
    ReducedIsLoose(a);
    PowerStep(x, 0);
    var index: nat := 254;
    while index > 0
      invariant index <= 254 && fresh(c) && IsReduced(c)
      invariant Element(c) == FieldPower(x, ExponentAt(index))
      modifies c
    {
      var exponent: nat := index - 1;
      PowerStep(x, ExponentAt(index));
      ReducedIsLoose(c);
      Multiply(c, c, c);
      if exponent != 2 && exponent != 4 {
        ReducedIsLoose(c);
        Multiply(c, c, a);
      }
      index := index - 1;
    }
    ExponentExact();
    Assign(out, c);
  }

  // ---- Bytes ----

  /** Little-endian bytes of sixteen bit words, each narrowed from a limb. */
  function WordBytes(words: seq<int>): (r: seq<byte>)
    ensures |r| == 2 * |words|
  {
    if words == [] then []
    else
      var word := words[0] % RADIX;
      [word % 256, word / 256] + WordBytes(words[1..])
  }

  function BytesWords(bytes: seq<byte>): (r: seq<int64>)
    requires |bytes| % 2 == 0
    ensures |r| == |bytes| / 2
  {
    if bytes == [] then []
    else [bytes[0] as int + 256 * bytes[1] as int] + BytesWords(bytes[2..])
  }

  lemma {:induction false} WordBytesValue(words: seq<int>)
    requires forall i :: 0 <= i < |words| ==> 0 <= words[i] < RADIX
    ensures LittleEndian(WordBytes(words)) == Value(words)
    decreases |words|
  {
    if words != [] {
      var r := WordBytes(words);
      WordBytesValue(words[1..]);
      TwoBytes(r);
      assert r[2..] == WordBytes(words[1..]);
    }
  }

  lemma {:induction false} TwoBytes(b: seq<byte>)
    requires |b| >= 2
    ensures LittleEndian(b) == b[0] as int + 256 * b[1] as int + RADIX * LittleEndian(b[2..])
  {
    assert b[1..][1..] == b[2..];
    assert LittleEndian(b[1..]) == b[1] as int + 256 * LittleEndian(b[2..]);
  }

  lemma {:induction false} BytesWordsValue(bytes: seq<byte>)
    requires |bytes| % 2 == 0
    ensures Value(BytesWords(bytes)) == LittleEndian(bytes)
    ensures forall i :: 0 <= i < |bytes| / 2 ==> 0 <= BytesWords(bytes)[i] < RADIX
    decreases |bytes|
  {
    if bytes != [] {
      BytesWordsValue(bytes[2..]);
      TwoBytes(bytes);
      assert BytesWords(bytes)[1..] == BytesWords(bytes[2..]);
    }
  }

  // ---- Packing ----

  function PrimeAt(index: nat): int
    requires index < LIMBS
  {
    if index == 0 then 0xffed else if index < LIMBS - 1 then 0xffff else 0x7fff
  }

  ghost function Prime(): (r: seq<int>)
    ensures |r| == LIMBS
  {
    seq(LIMBS, i requires 0 <= i < LIMBS => PrimeAt(i))
  }

  lemma {:induction false} PrimeValue()
    ensures Value(Prime()) == P
  {
    var p := Prime();
    PrimeHigh(p, 1);
    assert Value(p) == p[0] + RADIX * Value(p[1..]);
    ShiftFour(1);
    ShiftFour(Shift(1, 4));
    ShiftTwice(1, 4, 4);
    ShiftFour(Shift(1, 8));
    ShiftTwice(1, 8, 4);
    assert Shift(1, 15) == RADIX * Shift(1, 14) && Shift(1, 14) == RADIX * Shift(1, 13) &&
           Shift(1, 13) == RADIX * Shift(1, 12);
    hide Value, Shift;
  }

  lemma {:induction false} PrimeHigh(p: seq<int>, i: nat)
    requires p == Prime() && 1 <= i < LIMBS
    ensures 2 * Value(p[i..]) == Shift(1, 16 - i) - 2
    decreases LIMBS - i
  {
    assert p[i..][0] == PrimeAt(i);
    if i < LIMBS - 1 {
      PrimeHigh(p, i + 1);
      assert p[i..][1..] == p[i + 1..];
    } else {
      assert p[i..][1..] == [];
      assert Shift(1, 1) == RADIX * Shift(1, 0);
    }
  }

  /** Moving a borrow of the last limb into the next. */
  lemma {:induction false} BorrowValue(s: seq<int>, x: int, borrow: int)
    requires |s| > 0
    ensures var k := |s| - 1;
      Value(s[k := s[k] + RADIX * borrow] + [x - borrow]) == Value(s) + Shift(x, |s|)
  {
    var k := |s| - 1;
    var t := s[k := s[k] + RADIX * borrow];
    ValueUpdate(s, k, RADIX * borrow);
    ValueAppend(t, [x - borrow]);
    assert Value([x - borrow]) == x - borrow + RADIX * Value([]);
    ShiftSum(x - borrow, borrow, |s|);
    ShiftTwice(borrow, 1, k);
    assert Shift(borrow, 1) == RADIX * Shift(borrow, 0);
    hide Value;
  }

  /** Limbs of a partial difference: all but the last in range, and the last less by a borrow. */
  ghost predicate Borrowed(m: seq<int>, t: seq<int>, k: nat)
    requires |m| == |t| == LIMBS && 1 <= k <= LIMBS
  {
    && (forall i :: 0 <= i < k - 1 ==> 0 <= m[i] < RADIX)
    && -RADIX <= m[k - 1] < RADIX
    && Value(m[..k]) == Value(t[..k]) - Value(Prime()[..k])
  }

  lemma {:induction false} BorrowStep(m: seq<int>, t: seq<int>, k: nat, next: seq<int>)
    requires Canonical(t) && |m| == LIMBS && 1 <= k < LIMBS && Borrowed(m, t, k)
    requires var borrow := if m[k - 1] < 0 then 1 else 0;
      next == m[k - 1 := m[k - 1] % RADIX][k := t[k] - PrimeAt(k) - borrow]
    ensures Borrowed(next, t, k + 1)
  {
    var borrow := if m[k - 1] < 0 then 1 else 0;
    assert m[k - 1] % RADIX == m[k - 1] + RADIX * borrow;
    var s := m[..k];
    assert next[..k + 1] == s[k - 1 := s[k - 1] + RADIX * borrow] + [t[k] - PrimeAt(k) - borrow];
    BorrowValue(s, t[k] - PrimeAt(k), borrow);
    ValueNext(t, k);
    ValueNext(Prime(), k);
    ShiftSum(t[k] - PrimeAt(k), PrimeAt(k), k);
    hide Value, Shift;
  }

  /** One limb of the difference, borrowing from it for the one before. */
  method BorrowLimb(t: array<int64>, m: array<int64>, index: nat)
    requires t != m && t.Length == m.Length == LIMBS && 1 <= index < LIMBS && Canonical(t[..])
    requires Borrowed(m[..], t[..], index)
    modifies m
    ensures Borrowed(m[..], t[..], index + 1)
  {
    ghost var s: seq<int> := m[..];
    var borrow := if m[index - 1] < 0 then 1 else 0;
    m[index] := t[index] - PrimeAt(index) - borrow;
    m[index - 1] := m[index - 1] % RADIX;
    BorrowStep(s, t[..], index, m[..]);
  }

  lemma {:induction false} BorrowFirst(m: seq<int>, t: seq<int>)
    requires Canonical(t) && |m| == LIMBS && m[0] == t[0] - PrimeAt(0)
    ensures Borrowed(m, t, 1)
  {
    assert m[..1][0] == m[0] && t[..1][0] == t[0] && Prime()[..1][0] == PrimeAt(0);
    assert Value(m[..1][1..]) == 0 && Value(t[..1][1..]) == 0 && Value(Prime()[..1][1..]) == 0;
  }

  /** The sign of the last limb is the sign of the difference. */
  lemma {:induction false} BorrowedSign(m: seq<int>, t: seq<int>)
    requires Canonical(t) && |m| == LIMBS && Borrowed(m, t, LIMBS)
    ensures Value(m) == Value(t) - P
    ensures m[LIMBS - 1] >= 0 <==> Value(t) >= P
  {
    PrimeValue();
    assert m[..LIMBS] == m && t[..LIMBS] == t && Prime()[..LIMBS] == Prime();
    var low := m[..LIMBS - 1];
    CanonicalBound(low, 0);
    assert low[0..] == low;
    ValueNext(m, LIMBS - 1);
    hide Value;
    if m[LIMBS - 1] >= 0 {
      ShiftOrdered(0, m[LIMBS - 1], LIMBS - 1);
      ShiftZero(LIMBS - 1);
    } else {
      ShiftOrdered(m[LIMBS - 1], -1, LIMBS - 1);
      ShiftSum(-1, 1, LIMBS - 1);
      ShiftZero(LIMBS - 1);
    }
  }

  /** One conditional subtraction of the prime. */
  method SubtractPrime(t: array<int64>)
    requires t.Length == LIMBS && Canonical(t[..])
    modifies t
    ensures Canonical(t[..])
    ensures Value(t[..]) == (if old(Value(t[..])) >= P then old(Value(t[..])) - P else old(Value(t[..])))
  {
    hide Value;
    ghost var s := t[..];
    var m := new int64[LIMBS](_ => 0);
    m[0] := t[0] - PrimeAt(0);
    BorrowFirst(m[..], t[..]);
    var index: nat := 1;
    while index < LIMBS
      invariant 1 <= index <= LIMBS && Borrowed(m[..], t[..], index)
      modifies m
    {
      BorrowLimb(t, m, index);
      index := index + 1;
    }
    BorrowedSign(m[..], t[..]);
    assert t[..] == s;
    Select(t, m, if m[LIMBS - 1] < 0 then 0 else 1);
  }

  /** Serializes the unique representative below the prime. */
  method Pack(in_: array<int64>) returns (out: seq<byte>)
    requires in_.Length == LIMBS && Within(in_[..], WIDE)
    ensures |out| == 32 && LittleEndian(out) == Element(in_)
  {
    hide Value, Residue, Carry, Within, LittleEndian, WordBytes;
    var t := Copy(in_);
    CarryPasses(t);
    ghost var s: seq<int> := t[..];
    CarryThrice(s);
    CarryKeeps(s);
    CarryPass(t);
    ghost var v := Value(t[..]);
    CanonicalBound(t[..], 0);
    assert t[..][0..] == t[..];
    ShiftAll(1);
    SubtractPrime(t);
    SubtractPrime(t);
    ResidueUnique(v, if v >= 2 * P then 2 else if v >= P then 1 else 0, Value(t[..]));
    WordBytesValue(t[..]);
    out := WordBytes(t[..]);
  }

  /** Deserializes, without the unused top bit. */
  method Unpack(out: array<int64>, key: seq<byte>)
    requires out.Length == LIMBS && |key| == 32
    modifies out
    ensures Canonical(out[..]) && IsReduced(out) && Value(out[..]) == LittleEndian(key) % (P + 19)
  {
    var words := BytesWords(key);
    BytesWordsValue(key);
    forall i | 0 <= i < LIMBS {
      out[i] := words[i];
    }
    assert out[..] == words;
    ghost var s: seq<int> := out[..];
    var last := LIMBS - 1;
    out[last] := if out[last] >= 0x8000 then out[last] - 0x8000 else out[last];
    ghost var top := if s[last] >= 0x8000 then 1 else 0;
    assert out[..] == s[last := s[last] - 0x8000 * top];
    TopBit(s, out[..], top);
  }

  /** The weight of the top bit. */
  lemma {:induction false} HalfShift(x: int)
    ensures Shift(0x8000 * x, 15) == (P + 19) * x
  {
    ShiftSum(0x8000 * x, 0x8000 * x, 15);
    ShiftTwice(x, 1, 15);
    assert Shift(x, 1) == RADIX * Shift(x, 0);
    assert 0x8000 * x + 0x8000 * x == Shift(x, 1);
    ShiftAll(x);
    hide Shift;
  }

  lemma {:induction false} TopBound(t: seq<int>)
    requires Canonical(t) && t[15] < 0x8000
    ensures 0 <= Value(t) < P + 19
  {
    var low := t[..15];
    CanonicalBound(low, 0);
    assert low[0..] == low && t[..16] == t;
    ValueNext(t, 15);
    hide Value;
    ShiftOrdered(0, t[15], 15);
    ShiftZero(15);
    ShiftOrdered(t[15] + 1, 0x8000, 15);
    ShiftSum(t[15], 1, 15);
    HalfShift(1);
    hide Shift;
  }

  lemma {:induction false} TopBit(s: seq<int>, t: seq<int>, top: int)
    requires Canonical(s) && (top == 0 || top == 1) && t == s[15 := s[15] - 0x8000 * top] && 0 <= t[15] < 0x8000
    ensures Value(t) == Value(s) % (P + 19)
  {
    ValueUpdate(s, 15, 0x8000 * -top);
    HalfShift(-top);
    TopBound(t);
    hide Value, Shift;
    assert Value(s) == Value(t) + top * (P + 19);
  }
}
