/** X25519 scalar multiplication: the Montgomery ladder on limb arrays computes the function that
    section 5 of RFC 7748 defines on integers modulo the prime. */
module Ladder25519 {
  import opened Common
  import opened Words
  import opened Field25519
  import opened X25519

  // ---- RFC 7748, section 5 ----

  /** decodeScalar25519 on bytes. */
  function Clamp(scalar: seq<byte>): (r: seq<byte>)
    requires |scalar| == 32
    ensures |r| == 32
  {
    scalar[0 := scalar[0] - scalar[0] % 8][31 := scalar[31] % 64 + 64]
  }

  datatype Rung = Rung(x2: int, z2: int, x3: int, z3: int)

  ghost function Swapped(r: Rung, swap: int): Rung {
    if swap == 1 then Rung(r.x3, r.z3, r.x2, r.z2) else r
  }

  /** One doubling and one differential addition on the curve of coefficient 486662, by their formulas in
      projective coordinates. */
  ghost function Montgomery(r: Rung, u: int): Rung {
    var Rung(x2, z2, x3, z3) := r;
    var difference, product := x2 * x2 - z2 * z2, x2 * z2;
    var same, cross := x2 * x3 - z2 * z3, x2 * z3 - z2 * x3;
    Rung(Residue(difference * difference),
         Residue(4 * product * (x2 * x2 + 486662 * product + z2 * z2)),
         Residue(4 * (same * same)),
         Residue(u * (4 * (cross * cross))))
  }

  /** The same in the steps of RFC 7748. */
  ghost function Climb(r: Rung, u: int, a24: int): Rung {
    var a := FieldAdd(r.x2, r.z2);
    var aa := FieldMultiply(a, a);
    var b := FieldSubtract(r.x2, r.z2);
    var bb := FieldMultiply(b, b);
    var e := FieldSubtract(aa, bb);
    var c := FieldAdd(r.x3, r.z3);
    var d := FieldSubtract(r.x3, r.z3);
    var da := FieldMultiply(d, a);
    var cb := FieldMultiply(c, b);
    var sum := FieldAdd(da, cb);
    var difference := FieldSubtract(da, cb);
    Rung(FieldMultiply(aa, bb), FieldMultiply(e, FieldAdd(aa, FieldMultiply(a24, e))),
         FieldMultiply(sum, sum), FieldMultiply(u, FieldMultiply(difference, difference)))
  }

  lemma {:induction false} ResidueOnce(x: int, y: int)
    ensures FieldMultiply(x, Residue(y)) == Residue(x * y) && FieldMultiply(Residue(x), y) == Residue(x * y)
    ensures FieldMultiply(Residue(x), Residue(y)) == Residue(x * y)
    ensures FieldAdd(Residue(x), Residue(y)) == Residue(x + y) && FieldSubtract(Residue(x), Residue(y)) == Residue(x - y)
  {
    ResidueUnique(Residue(x), 0, Residue(x));
    ResidueUnique(Residue(y), 0, Residue(y));
    ResidueMultiply(x, y);
    ResidueMultiply(Residue(x), y);
    ResidueMultiply(x, Residue(y));
    ResidueAdd(x, y);
  }

  /** A product of a sum and a difference. */
  lemma {:induction false} SumTimes(a: int, b: int, c: int, d: int)
    ensures (a + b) * (c + d) == a * c + a * d + b * c + b * d
    ensures (a - b) * (c + d) == a * c + a * d - b * c - b * d
    ensures (a + b) * (c - d) == a * c - a * d + b * c - b * d
    ensures (a - b) * (c - d) == a * c - a * d - b * c + b * d
  {
  }

  /** The doubling on integers. */
  lemma {:induction false} Doubling(x: int, z: int)
    ensures var a, b := (x + z) * (x + z), (x - z) * (x - z);
      && a * b == (x * x - z * z) * (x * x - z * z)
      && (a - b) * (a + 121665 * (a - b)) == 4 * (x * z) * (x * x + 486662 * (x * z) + z * z)
  {
    SumTimes(x, z, x, z);
    var p, q, r := x * x, x * z, z * z;
    assert z * x == q;
    var a, b := p + 2 * q + r, p - 2 * q + r;
    assert (x + z) * (x + z) == a && (x - z) * (x - z) == b;
    SumTimes(p + r, 2 * q, p + r, 2 * q);
    assert a * b == (p + r) * (p + r) - (2 * q) * (2 * q);
    SumTimes(p, r, p, r);
    assert (2 * q) * (2 * q) == 4 * (q * q) && q * q == p * r by {
      assert (x * z) * (x * z) == (x * x) * (z * z);
    }
    assert r * p == p * r;
  }

  /** The differential addition on integers. */
  lemma {:induction false} Addition(x2: int, z2: int, x3: int, z3: int)
    ensures var da, cb := (x3 - z3) * (x2 + z2), (x3 + z3) * (x2 - z2);
      var same, cross := x2 * x3 - z2 * z3, x2 * z3 - z2 * x3;
      (da + cb) * (da + cb) == 4 * (same * same) && (da - cb) * (da - cb) == 4 * (cross * cross)
  {
    var da, cb := (x3 - z3) * (x2 + z2), (x3 + z3) * (x2 - z2);
    SumTimes(x3, z3, x2, z2);
    var same, cross := x2 * x3 - z2 * z3, x2 * z3 - z2 * x3;
    assert x3 * x2 == x2 * x3 && z3 * z2 == z2 * z3 && x3 * z2 == z2 * x3 && z3 * x2 == x2 * z3;
    assert da + cb == 2 * same && da - cb == -2 * cross;
    Twice(same);
    Twice(-cross);
    assert (-cross) * (-cross) == cross * cross;
  }

  lemma {:induction false} Twice(x: int)
    ensures (2 * x) * (2 * x) == 4 * (x * x)
  {
  }

  /** The steps of RFC 7748 with its constant compute those formulas. */
  lemma {:induction false} ClimbIs(r: Rung, u: int)
    ensures Climb(r, u, 121665) == Montgomery(r, u)
  {
    hide FieldMultiply, FieldAdd, FieldSubtract, Residue;
    ClimbDoubles(r, u);
    ClimbAdds(r, u);
  }

  lemma {:induction false} Sums(x: int, y: int)
    ensures FieldAdd(x, y) == Residue(x + y) && FieldSubtract(x, y) == Residue(x - y)
  {
  }

  lemma {:induction false} ClimbDoubles(r: Rung, u: int)
    ensures var next, formula := Climb(r, u, 121665), Montgomery(r, u);
      next.x2 == formula.x2 && next.z2 == formula.z2
  {
    hide FieldMultiply, FieldAdd, FieldSubtract, Residue;
    var Rung(x, z, _, _) := r;
    var a, b := (x + z) * (x + z), (x - z) * (x - z);
    Sums(x, z);
    ResidueOnce(x + z, x + z);
    ResidueOnce(x - z, x - z);
    ResidueOnce(a, b);
    ResidueOnce(121665, a - b);
    ResidueOnce(a, 121665 * (a - b));
    ResidueOnce(a - b, a + 121665 * (a - b));
    Doubling(x, z);
  }

  lemma {:induction false} ClimbAdds(r: Rung, u: int)
    ensures var next, formula := Climb(r, u, 121665), Montgomery(r, u);
      next.x3 == formula.x3 && next.z3 == formula.z3
  {
    hide FieldMultiply, FieldAdd, FieldSubtract, Residue;
    var Rung(x2, z2, x3, z3) := r;
    var da, cb := (x3 - z3) * (x2 + z2), (x3 + z3) * (x2 - z2);
    Sums(x2, z2);
    Sums(x3, z3);
    ResidueOnce(x3 - z3, x2 + z2);
    ResidueOnce(x3 + z3, x2 - z2);
    ResidueOnce(da, cb);
    ResidueOnce(da + cb, da + cb);
    ResidueOnce(da - cb, da - cb);
    ResidueOnce(u, (da - cb) * (da - cb));
    Addition(x2, z2, x3, z3);
  }

  function BitOf(k: nat, t: nat): (bit: int)
    ensures bit == 0 || bit == 1
  {
    (k / Pow2(t)) % 2
  }

  ghost function ClimbBy(u: int): Rung -> Rung {
    r => Montgomery(r, u)
  }

  /** The ladder after the bits at and above an index, with the swap still owed. */
  ghost function LadderAt(k: nat, start: Rung, climb: Rung -> Rung, t: nat): (Rung, int)
    requires t <= 255
    decreases 255 - t
  {
    if t == 255 then (start, 0)
    else
      var (rung, swap) := LadderAt(k, start, climb, t + 1);
      var bit := BitOf(k, t);
      (climb(Swapped(rung, (swap + bit) % 2)), bit)
  }

  ghost function Ladder(k: nat, u: int): int {
    var (rung, swap) := LadderAt(k, Rung(1, 0, u, 1), ClimbBy(u), 0);
    var last := Swapped(rung, swap);
    FieldMultiply(last.x2, FieldPower(last.z2, P - 2))
  }

  // ---- The same with swaps paid at each step ----

  ghost function SteppedAt(k: nat, start: Rung, climb: Rung -> Rung, t: nat): Rung
    requires t <= 255
    decreases 255 - t
  {
    if t == 255 then start
    else Swapped(climb(Swapped(SteppedAt(k, start, climb, t + 1), BitOf(k, t))), BitOf(k, t))
  }

  lemma {:induction false} SteppedIsLadder(k: nat, start: Rung, climb: Rung -> Rung, t: nat)
    requires t <= 255
    ensures var (rung, swap) := LadderAt(k, start, climb, t);
      SteppedAt(k, start, climb, t) == Swapped(rung, swap) && (swap == 0 || swap == 1)
    decreases 255 - t
  {
    if t < 255 {
      SteppedIsLadder(k, start, climb, t + 1);
      var (rung, swap) := LadderAt(k, start, climb, t + 1);
      SwapSwap(rung, swap, BitOf(k, t));
      hide BitOf, Swapped;
    }
  }

  lemma {:induction false} SteppedNext(k: nat, u: int, t: nat)
    requires t < 255
    ensures var start, climb := Rung(1, 0, u, 1), ClimbBy(u);
      && SteppedAt(k, start, climb, 255) == start
      && SteppedAt(k, start, climb, t) ==
         Swapped(Climb(Swapped(SteppedAt(k, start, climb, t + 1), BitOf(k, t)), u, 121665), BitOf(k, t))
  {
    ClimbIs(Swapped(SteppedAt(k, Rung(1, 0, u, 1), ClimbBy(u), t + 1), BitOf(k, t)), u);
    hide BitOf, Swapped, Climb, Montgomery;
  }

  lemma {:induction false} LadderIs(k: nat, u: int)
    ensures var last := SteppedAt(k, Rung(1, 0, u, 1), ClimbBy(u), 0);
      Ladder(k, u) == FieldMultiply(last.x2, FieldPower(last.z2, P - 2))
  {
    hide FieldMultiply, FieldPower, ClimbBy;
    SteppedIsLadder(k, Rung(1, 0, u, 1), ClimbBy(u), 0);
  }

  lemma {:induction false} SwapSwap(r: Rung, swap: int, bit: int)
    requires (swap == 0 || swap == 1) && (bit == 0 || bit == 1)
    ensures Swapped(Swapped(r, swap), bit) == Swapped(r, (swap + bit) % 2)
  {
  }

  // ---- Bits of a scalar ----

  /** Bits of a byte string are bits of the number it encodes. */
  lemma {:induction false} ByteBit(bytes: seq<byte>, i: nat, j: nat)
    requires i < |bytes| && j < 8
    ensures BitOf(LittleEndian(bytes), 8 * i + j) == BitOf(bytes[i], j)
    decreases i
  {
    var high := LittleEndian(bytes[1..]);
    hide BitOf;
    if i == 0 {
      LowBit(bytes[0], high, j);
    } else {
      ByteBit(bytes[1..], i - 1, j);
      HighBit(bytes[0], high, 8 * i + j);
    }
  }

  lemma {:induction false} HighBit(low: byte, high: nat, t: nat)
    requires t >= 8
    ensures BitOf(low + 256 * high, t) == BitOf(high, t - 8)
  {
    Pow2Sum(8, t - 8);
    assert Pow2(8) == 256;
    hide Pow2;
    DivDiv(low + 256 * high, 256, Pow2(t - 8));
  }

  lemma {:induction false} LowBit(low: byte, high: nat, t: nat)
    requires t < 8
    ensures BitOf(low + 256 * high, t) == BitOf(low, t)
  {
    Pow2Sum(t, 8 - t);
    assert Pow2(8) == 256 && Pow2(8 - t) == 2 * Pow2(7 - t);
    var p, h := Pow2(t), Pow2(7 - t);
    hide Pow2;
    AddMultiple(low, high, p, 2 * h);
    MulAssociative(2, h, high);
    EvenAdded(low / p, h * high);
  }

  lemma {:induction false} EvenAdded(x: nat, half: nat)
    ensures (x + 2 * half) % 2 == x % 2
  {
  }

  lemma {:induction false} AddMultiple(low: nat, high: nat, p: nat, m: nat)
    requires p > 0 && p * m == 256
    ensures (low + 256 * high) / p == low / p + m * high
  {
    var q, r := low / p, low % p;
    assert low == q * p + r;
    var n := m * high;
    MulAssociative(p, m, high);
    assert p * n == 256 * high;
    assert (q + n) * p == q * p + p * n;
    DivideUnique(low + 256 * high, p, q + n, r);
  }

  const POW254: nat := 0x4000_0000_0000_0000_0000_0000_0000_0000_0000_0000_0000_0000_0000_0000_0000_0000

  /** A clamped scalar keeps its bits but the lowest three, which are cleared, and those from bit 254
      on, of which that bit alone is set. */
  lemma {:induction false} ClampExact(scalar: seq<byte>)
    requires |scalar| == 32
    ensures var n, clamped := LittleEndian(scalar), LittleEndian(Clamp(scalar));
      && clamped == POW254 + n % POW254 - n % 8
      && clamped % 8 == 0 && POW254 <= clamped < 2 * POW254
  {
    hide LittleEndian, Pow256;
    var c := Clamp(scalar);
    EndBytes(scalar);
    EndBytes(c);
    assert c[1..31] == scalar[1..31];
    MiddleBound(scalar);
    PowerBytes();
    ClampSum(scalar[0], LittleEndian(scalar[1..31]), scalar[31], Pow256(31));
  }

  /** The same of the parts of a scalar. */
  lemma {:induction false} ClampSum(first: byte, middle: nat, top: byte, q: nat)
    requires POW254 == 64 * q && first + 256 * middle < q
    ensures var n := first + 256 * middle + q * top;
      var clamped := first - first % 8 + 256 * middle + q * (top % 64 + 64);
      && clamped == POW254 + n % POW254 - n % 8
      && clamped % 8 == 0 && POW254 <= clamped < 2 * POW254
  {
    var low := first + 256 * middle;
    TopSplit(low, top, q);
    LowEighth(first, middle, top, q / 256);
    LowEighth(first - first % 8, middle, top % 64 + 64, q / 256);
    MulMonotone(q, top % 64, 63);
    assert q * (top % 64 + 64) == q * (top % 64) + 64 * q;
  }

  lemma {:induction false} TopSplit(low: nat, top: byte, q: nat)
    requires low < q
    ensures (low + q * top) % (64 * q) == low + q * (top % 64)
  {
    MulMonotone(q, top % 64, 63);
    assert q * top == (top / 64) * (64 * q) + q * (top % 64);
    DivideUnique(low + q * top, 64 * q, top / 64, low + q * (top % 64));
  }

  lemma {:induction false} LowEighth(first: byte, middle: nat, top: byte, r: nat)
    ensures (first + 256 * middle + (256 * r) * top) % 8 == first % 8
  {
    var rest := middle + r * top;
    assert (256 * r) * top == 256 * (r * top);
    DivideUnique(first + 256 * rest, 8, first / 8 + 32 * rest, first % 8);
  }

  lemma {:induction false} EndBytes(s: seq<byte>)
    requires |s| == 32
    ensures LittleEndian(s) == s[0] + 256 * LittleEndian(s[1..31]) + Pow256(31) * s[31]
  {
    assert s == s[..31] + [s[31]] && s[..31][1..] == s[1..31];
    LittleEndianAppend(s[..31], [s[31]]);
    assert LittleEndian([s[31]]) == s[31] && LittleEndian(s[..31]) == s[0] + 256 * LittleEndian(s[..31][1..]);
  }

  lemma {:induction false} MiddleBound(s: seq<byte>)
    requires |s| == 32
    ensures s[0] + 256 * LittleEndian(s[1..31]) < Pow256(31)
  {
    LittleEndianBound(s[..31]);
    assert s[..31][1..] == s[1..31];
  }

  lemma {:induction false} PowerBytes()
    ensures 128 * Pow256(31) == P + 19
  {
    BytesShift(16);
    assert Pow256(32) == 256 * Pow256(31);
    ShiftAll(1);
  }

  lemma {:induction false} BytesShift(n: nat)
    ensures Pow256(2 * n) == Shift(1, n)
  {
    if n > 0 {
      BytesShift(n - 1);
      assert Pow256(2 * n) == 256 * Pow256(2 * n - 1) == 256 * (256 * Pow256(2 * n - 2));
    }
  }

  // ---- The ladder on limb arrays ----

  ghost predicate AreReduced(a: array<int64>, b: array<int64>, c: array<int64>, d: array<int64>)
    reads a, b, c, d
  {
    IsReduced(a) && IsReduced(b) && IsReduced(c) && IsReduced(d)
  }

  /** The rung that the ladder variables hold. */
  ghost function RungOf(a: array<int64>, b: array<int64>, c: array<int64>, d: array<int64>): Rung
    requires a.Length == b.Length == c.Length == d.Length == LIMBS
    reads a, b, c, d
  {
    Rung(Element(a), Element(c), Element(b), Element(d))
  }

  /** Sums and products of the first half of a step. */
  method ClimbFirst(a: array<int64>, b: array<int64>, c: array<int64>, d: array<int64>, e: array<int64>,
                    f: array<int64>)
    requires a.Length == b.Length == c.Length == d.Length == e.Length == f.Length == LIMBS
    requires Distinct([a, b, c, d, e, f]) && AreReduced(a, b, c, d)
    modifies a, b, c, d, e, f
    ensures AreReduced(a, c, d, f)
    ensures var sum, difference := FieldAdd(old(Element(a)), old(Element(c))),
      FieldSubtract(old(Element(a)), old(Element(c)));
      && Element(d) == FieldMultiply(sum, sum) && Element(f) == FieldMultiply(difference, difference)
      && Element(a) == FieldMultiply(FieldAdd(old(Element(b)), old(Element(d))), difference)
      && Element(c) == FieldMultiply(FieldSubtract(old(Element(b)), old(Element(d))), sum)
  {
    hide Element, IsReduced, IsLoose, FieldAdd, FieldSubtract, FieldMultiply;
    ghost var s := [a, b, c, d, e, f];
    assert s[0] == a && s[1] == b && s[2] == c && s[3] == d && s[4] == e && s[5] == f;
    Add(e, a, c);
    Subtract(a, a, c);
    Add(c, b, d);
    Subtract(b, b, d);
    Multiply(d, e, e);
    Multiply(f, a, a);
    Multiply(a, c, a);
    Multiply(c, b, e);
  }

  /** Sums and products of the second half of a step. */
  method ClimbSecond(a: array<int64>, b: array<int64>, c: array<int64>, d: array<int64>, e: array<int64>,
                     f: array<int64>, x: array<int64>, a24: array<int64>)
    requires a.Length == b.Length == c.Length == d.Length == e.Length == f.Length == LIMBS
    requires Distinct([a, b, c, d, e, f, x, a24]) && AreReduced(a, c, d, f)
    requires IsReduced(x) && IsReduced(a24)
    modifies a, b, c, d, e, f
    ensures AreReduced(a, b, c, d)
    ensures var difference, rest := FieldSubtract(old(Element(a)), old(Element(c))),
      FieldSubtract(old(Element(d)), old(Element(f)));
      && Element(a) == FieldMultiply(old(Element(d)), old(Element(f)))
      && Element(c) == FieldMultiply(rest, FieldAdd(FieldMultiply(rest, Element(a24)), old(Element(d))))
      && Element(b) == FieldMultiply(FieldAdd(old(Element(a)), old(Element(c))),
                                     FieldAdd(old(Element(a)), old(Element(c))))
      && Element(d) == FieldMultiply(FieldMultiply(difference, difference), Element(x))
  {
    ghost var s := [a, b, c, d, e, f, x, a24];
    assert s[0] == a && s[1] == b && s[2] == c && s[3] == d && s[4] == e && s[5] == f && s[6] == x && s[7] == a24;
    ReducedIsLoose(x);
    ReducedIsLoose(a24);
    hide Element, IsReduced, IsLoose, FieldAdd, FieldSubtract, FieldMultiply;
    Add(e, a, c);
    Subtract(a, a, c);
    Multiply(b, a, a);
    Subtract(c, d, f);
    Multiply(a, c, a24);
    Add(a, a, d);
    Multiply(c, c, a);
    ReducedIsLoose(d);
    ReducedIsLoose(f);
    Multiply(a, d, f);
    ReducedIsLoose(b);
    Multiply(d, b, x);
    Multiply(b, e, e);
  }

  lemma {:induction false} Commutes(x: int, y: int)
    ensures FieldAdd(x, y) == FieldAdd(y, x) && FieldMultiply(x, y) == FieldMultiply(y, x)
  {
    assert x * y == y * x;
  }

  /** Opposite differences have the same square. */
  lemma {:induction false} SquareOpposite(x: int, y: int)
    ensures FieldMultiply(FieldSubtract(x, y), FieldSubtract(x, y)) ==
            FieldMultiply(FieldSubtract(y, x), FieldSubtract(y, x))
  {
    ResidueMultiply(x - y, x - y);
    ResidueMultiply(y - x, y - x);
    assert (x - y) * (x - y) == (y - x) * (y - x);
  }

  /** One step of the ladder in place. */
  method ClimbRung(a: array<int64>, b: array<int64>, c: array<int64>, d: array<int64>, e: array<int64>,
                   f: array<int64>, x: array<int64>, a24: array<int64>)
    requires a.Length == b.Length == c.Length == d.Length == e.Length == f.Length == LIMBS
    requires Distinct([a, b, c, d, e, f, x, a24]) && AreReduced(a, b, c, d)
    requires IsReduced(x) && IsReduced(a24)
    modifies a, b, c, d, e, f
    ensures AreReduced(a, b, c, d)
    ensures RungOf(a, b, c, d) == Climb(old(RungOf(a, b, c, d)), Element(x), Element(a24))
  {
    ghost var s := [a, b, c, d, e, f, x, a24];
    assert s[0] == a && s[1] == b && s[2] == c && s[3] == d && s[4] == e && s[5] == f && s[6] == x && s[7] == a24;
    assert Distinct([a, b, c, d, e, f]) by {
      assert [a, b, c, d, e, f] == s[..6];
    }
    hide Element, IsReduced, FieldAdd, FieldSubtract, FieldMultiply, Distinct;
    ghost var sum := FieldAdd(Element(a), Element(c));
    ghost var difference := FieldSubtract(Element(a), Element(c));
    ghost var e' := FieldSubtract(FieldMultiply(sum, sum), FieldMultiply(difference, difference));
    ClimbFirst(a, b, c, d, e, f);
    ghost var da, cb := Element(c), Element(a);
    Commutes(da, cb);
    SquareOpposite(da, cb);
    Commutes(e', Element(a24));
    Commutes(FieldMultiply(sum, sum), FieldMultiply(Element(a24), e'));
    Commutes(Element(x), FieldMultiply(FieldSubtract(da, cb), FieldSubtract(da, cb)));
    ClimbSecond(a, b, c, d, e, f, x, a24);
  }

  /** A field of one limb. */
  method NewField(low: int64, next: int64) returns (field: array<int64>)
    requires 0 <= low < RADIX && 0 <= next < RADIX
    ensures fresh(field) && IsReduced(field) && Element(field) == low as int + RADIX * next
  {
    field := new int64[LIMBS](_ => 0);
    field[0], field[1] := low, next;
    ghost var s: seq<int> := field[..];
    ghost var rest := seq(14, _ => 0);
    assert s == [low as int, next as int] + rest;
    assert s[1..][0] == next && s[1..][1..] == rest;
    ValueZero(14);
    assert Value(s) == s[0] + RADIX * Value(s[1..]);
    ResidueUnique(Value(s), 0, Value(s));
  }

  /** Both coordinates swapped by a bit. */
  method SelectRung(a: array<int64>, b: array<int64>, c: array<int64>, d: array<int64>, bit: int64)
    requires Distinct([a, b, c, d]) && AreReduced(a, b, c, d) && (bit == 0 || bit == 1)
    requires a.Length == b.Length == c.Length == d.Length == LIMBS
    modifies a, b, c, d
    ensures AreReduced(a, b, c, d)
    ensures RungOf(a, b, c, d) == Swapped(old(RungOf(a, b, c, d)), bit)
  {
    hide Reduced, Value, Residue;
    ghost var s := [a, b, c, d];
    assert s[0] == a && s[1] == b && s[2] == c && s[3] == d;
    Select(a, b, bit);
    Select(c, d, bit);
  }

  method LadderStep(a: array<int64>, b: array<int64>, c: array<int64>, d: array<int64>, e: array<int64>,
                    f: array<int64>, x: array<int64>, a24: array<int64>, swap: int64)
    requires a.Length == b.Length == c.Length == d.Length == e.Length == f.Length == LIMBS
    requires Distinct([a, b, c, d, e, f, x, a24]) && AreReduced(a, b, c, d) && (swap == 0 || swap == 1)
    requires IsReduced(x) && IsReduced(a24)
    modifies a, b, c, d, e, f
    ensures AreReduced(a, b, c, d)
    ensures RungOf(a, b, c, d) ==
            Swapped(Climb(Swapped(old(RungOf(a, b, c, d)), swap), Element(x), Element(a24)), swap)
  {
    ghost var s := [a, b, c, d, e, f, x, a24];
    assert s[0] == a && s[1] == b && s[2] == c && s[3] == d && s[4] == e && s[5] == f && s[6] == x && s[7] == a24;
    assert Distinct([a, b, c, d]) by {
      assert [a, b, c, d] == s[..4];
    }
    hide Element, IsReduced, Distinct, RungOf, Climb, Swapped;
    SelectRung(a, b, c, d, swap);
    ClimbRung(a, b, c, d, e, f, x, a24);
    SelectRung(a, b, c, d, swap);
  }

  /** Scalar multiplication of a point: its result is that of RFC 7748 for every scalar and point,
      and it fails exactly when the result is zero. */
  method ScalarMultiply(scalar: seq<byte>, point: seq<byte>) returns (out: seq<byte>, ok: bool)
    requires |scalar| == |point| == 32
    ensures |out| == 32
    ensures LittleEndian(out) == Ladder(LittleEndian(Clamp(scalar)), Residue(LittleEndian(point) % (P + 19)))
    ensures ok <==> LittleEndian(out) != 0
  {
    hide LittleEndian, Residue, Value, Clamp, Climb, FieldMultiply, FieldPower, BitOf, Reduced, Distinct, Swapped;
    hide SteppedAt, ClimbBy, Ladder;
    var clamped := Clamp(scalar);
    ghost var k := LittleEndian(clamped);
    var x := new int64[LIMBS](_ => 0);
    Unpack(x, point);
    ghost var u := Element(x);
    ghost var start, climb := Rung(1, 0, u, 1), ClimbBy(u);
    var a24 := NewField(0xdb41, 1);
    var a, b, c, d, e, f := LadderVariables(x, a24);
    SteppedNext(k, u, 0);
    var index: nat := 255;
    while index > 0
      invariant index <= 255 && AreReduced(a, b, c, d)
      invariant RungOf(a, b, c, d) == SteppedAt(k, start, climb, index)
      modifies a, b, c, d, e, f
    {
      hide Element, IsReduced;
      var bit: nat := index - 1;
      var swap: int64 := BitOf(clamped[bit / 8], bit % 8);
      ByteBit(clamped, bit / 8, bit % 8);
      SteppedNext(k, u, bit);
      LadderStep(a, b, c, d, e, f, x, a24, swap);
      index := index - 1;
    }
    LadderIs(k, u);
    out := Quotient(a, c);
    ok := AnyNonZero(out);
  }

  /** The packed product of one field and the inverse of another. */
  method Quotient(a: array<int64>, c: array<int64>) returns (out: seq<byte>)
    requires a != c && IsReduced(a) && IsReduced(c)
    modifies a, c
    ensures |out| == 32
    ensures LittleEndian(out) == FieldMultiply(old(Element(a)), FieldPower(old(Element(c)), P - 2))
  {
    ReducedIsLoose(a);
    hide FieldMultiply, FieldPower, Element;
    Invert(c, c);
    ReducedIsLoose(c);
    Multiply(a, a, c);
    ReducedIsLoose(a);
    out := Pack(a);
  }

  method LadderVariables(x: array<int64>, a24: array<int64>)
    returns (a: array<int64>, b: array<int64>, c: array<int64>, d: array<int64>, e: array<int64>, f: array<int64>)
    requires IsReduced(x) && x != a24
    ensures fresh(a) && fresh(b) && fresh(c) && fresh(d) && fresh(e) && fresh(f)
    ensures Distinct([a, b, c, d, e, f, x, a24]) && AreReduced(a, b, c, d) && e.Length == f.Length == LIMBS
    ensures RungOf(a, b, c, d) == Rung(1, 0, Element(x), 1)
  {
    a := NewField(1, 0);
    b := Copy(x);
    c := NewField(0, 0);
    d := NewField(1, 0);
    e := new int64[LIMBS](_ => 0);
    f := new int64[LIMBS](_ => 0);
  }

  method AnyNonZero(bytes: seq<byte>) returns (any: bool)
    ensures any <==> LittleEndian(bytes) != 0
  {
    var i: nat := 0;
    while i < |bytes|
      invariant i <= |bytes|
      invariant LittleEndian(bytes) != 0 <==> LittleEndian(bytes[i..]) != 0
    {
      if bytes[i] != 0 {
        return true;
      }
      assert bytes[i..][1..] == bytes[i + 1..];
      i := i + 1;
    }
    return false;
  }
}
