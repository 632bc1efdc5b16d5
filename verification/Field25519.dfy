/** The field of integers modulo 2^255 - 19 in sixteen signed limbs of radix 2^16: the value that
    limbs denote, and what a pass of carries does to it. */
module Field25519 {

  const LIMBS: nat := 16
  const RADIX: int := 0x1_0000
  const FOLD: int := 38
  const P: int := 0x7fff_ffff_ffff_ffff_ffff_ffff_ffff_ffff_ffff_ffff_ffff_ffff_ffff_ffff_ffff_ffed

  type int64 = x: int | -0x8000_0000_0000_0000 <= x < 0x8000_0000_0000_0000

  ghost function Value(s: seq<int>): int {
    if s == [] then 0 else s[0] + RADIX * Value(s[1..])
  }

  /** A number moved up by a count of limbs. */
  ghost function Shift(x: int, limbs: nat): int {
    if limbs == 0 then x else RADIX * Shift(x, limbs - 1)
  }

  lemma {:induction false} ShiftSum(x: int, y: int, limbs: nat)
    ensures Shift(x + y, limbs) == Shift(x, limbs) + Shift(y, limbs)
  {
    if limbs > 0 {
      ShiftSum(x, y, limbs - 1);
    }
  }

  lemma {:induction false} ShiftTwice(x: int, a: nat, b: nat)
    ensures Shift(Shift(x, a), b) == Shift(x, a + b)
  {
    if b > 0 {
      ShiftTwice(x, a, b - 1);
    }
  }

  lemma {:induction false} ShiftOrdered(x: int, y: int, limbs: nat)
    requires x <= y
    ensures Shift(x, limbs) <= Shift(y, limbs)
  {
    if limbs > 0 {
      ShiftOrdered(x, y, limbs - 1);
    }
  }

  /** What is moved up by all the limbs exceeds its folding by a multiple of the prime. */
  lemma {:induction false} ShiftAll(x: int)
    ensures Shift(x, 16) == FOLD * x + (2 * x) * P
  {
    ShiftFour(x);
    ShiftFour(Shift(x, 4));
    ShiftTwice(x, 4, 4);
    ShiftFour(Shift(x, 8));
    ShiftTwice(x, 8, 4);
    ShiftFour(Shift(x, 12));
    ShiftTwice(x, 12, 4);
  }

  lemma {:induction false} ShiftFour(x: int)
    ensures Shift(x, 4) == 0x1_0000_0000_0000_0000 * x
  {
    assert Shift(x, 1) == RADIX * x && Shift(x, 2) == RADIX * Shift(x, 1) && Shift(x, 3) == RADIX * Shift(x, 2);
  }

  lemma {:induction false} ValueAppend(a: seq<int>, b: seq<int>)
    ensures Value(a + b) == Value(a) + Shift(Value(b), |a|)
    decreases |a|
  {
    if a == [] {
      assert a + b == b;
    } else {
      ValueAppend(a[1..], b);
      assert (a + b)[1..] == a[1..] + b;
    }
  }

  lemma {:induction false} ValueUpdate(s: seq<int>, k: nat, x: int)
    requires k < |s|
    ensures Value(s[k := s[k] + x]) == Value(s) + Shift(x, k)
    decreases k
  {
    var t := s[k := s[k] + x];
    if k == 0 {
      assert t[1..] == s[1..];
    } else {
      ValueUpdate(s[1..], k - 1, x);
      assert t[1..] == s[1..][k - 1 := s[1..][k - 1] + x];
    }
  }

  lemma {:induction false} ValueZero(n: nat)
    ensures Value(seq(n, _ => 0)) == 0
  {
    if n > 0 {
      ValueZero(n - 1);
      assert seq(n, _ => 0)[1..] == seq(n - 1, _ => 0);
    }
  }

  // ---- Congruence ----

  /** The element of the field that an integer denotes. */
  function Residue(x: int): (r: int)
    ensures 0 <= r < P
  {
    x % P
  }

  lemma {:induction false} ResidueUnique(x: int, k: int, r: int)
    requires x == k * P + r && 0 <= r < P
    ensures Residue(x) == r
  {
    var q := x / P;
    assert x == q * P + x % P;
  }

  lemma {:induction false} ResidueShift(x: int, k: int)
    ensures Residue(x + k * P) == Residue(x)
  {
    var q := x / P;
    assert x == q * P + x % P;
    ResidueUnique(x + k * P, q + k, x % P);
  }

  function FieldAdd(x: int, y: int): int {
    Residue(x + y)
  }

  function FieldSubtract(x: int, y: int): int {
    Residue(x - y)
  }

  function FieldMultiply(x: int, y: int): int {
    Residue(x * y)
  }

  lemma {:induction false} Split(x: int) returns (k: int)
    ensures x == Residue(x) + k * P
  {
    k := x / P;
  }

  lemma {:induction false} ResidueAdd(x: int, y: int)
    ensures Residue(x + y) == FieldAdd(Residue(x), Residue(y))
    ensures Residue(x - y) == FieldSubtract(Residue(x), Residue(y))
  {
    var j := Split(x);
    var k := Split(y);
    ResidueShift(Residue(x) + Residue(y), j + k);
    ResidueShift(Residue(x) - Residue(y), j - k);
  }

  lemma {:induction false} ResidueMultiply(x: int, y: int)
    ensures Residue(x * y) == FieldMultiply(Residue(x), Residue(y))
  {
    var j := Split(x);
    var k := Split(y);
    var a, b := Residue(x), Residue(y);
    var m := j * b + a * k + j * k * P;
    ProductSplit(a, j, b, k);
    ResidueShift(a * b, m);
  }

  lemma {:induction false} ProductSplit(a: int, j: int, b: int, k: int)
    ensures (a + j * P) * (b + k * P) == a * b + (j * b + a * k + j * k * P) * P
  {
    calc {
      (a + j * P) * (b + k * P);
      a * (b + k * P) + (j * P) * (b + k * P);
      a * b + a * (k * P) + ((j * P) * b + (j * P) * (k * P));
      { assert a * (k * P) == (a * k) * P && (j * P) * b == (j * b) * P && (j * P) * (k * P) == (j * k * P) * P; }
      a * b + (a * k) * P + (j * b) * P + (j * k * P) * P;
      a * b + (j * b + a * k + j * k * P) * P;
    }
  }

  // ---- A pass of carries ----

  /** The carry into a limb. */
  ghost function CarryAt(s: seq<int>, i: nat): int
    requires i <= |s|
  {
    if i == 0 then 0 else (s[i - 1] + CarryAt(s, i - 1)) / RADIX
  }

  ghost function DigitAt(s: seq<int>, i: nat): int
    requires i < |s|
  {
    (s[i] + CarryAt(s, i)) % RADIX
  }

  ghost function Digits(s: seq<int>): (r: seq<int>)
    ensures |r| == |s|
  {
    seq(|s|, i requires 0 <= i < |s| => DigitAt(s, i))
  }

  ghost function Carry(s: seq<int>): (r: seq<int>)
    requires |s| == LIMBS
    ensures |r| == LIMBS
  {
    Digits(s)[0 := DigitAt(s, 0) + CarryAt(s, LIMBS) * FOLD]
  }

  lemma {:induction false} SplitLimb(s: seq<int>, i: nat)
    requires i < |s|
    ensures s[i] + CarryAt(s, i) == RADIX * CarryAt(s, i + 1) + DigitAt(s, i)
    ensures 0 <= DigitAt(s, i) < RADIX
  {
  }

  lemma {:induction false} DigitsValue(s: seq<int>, i: nat)
    requires i <= |s|
    ensures Value(s[i..]) + CarryAt(s, i) == Value(Digits(s)[i..]) + Shift(CarryAt(s, |s|), |s| - i)
    decreases |s| - i
  {
    if i < |s| {
      DigitsValue(s, i + 1);
      SplitLimb(s, i);
      assert s[i..][1..] == s[i + 1..] && Digits(s)[i..][1..] == Digits(s)[i + 1..];
      hide CarryAt, DigitAt;
    }
  }

  /** A pass of carries changes the value by a multiple of the prime. */
  lemma {:induction false} CarryKeeps(s: seq<int>)
    requires |s| == LIMBS
    ensures Residue(Value(Carry(s))) == Residue(Value(s))
  {
    var c := CarryAt(s, LIMBS);
    DigitsValue(s, 0);
    assert s[0..] == s && Digits(s)[0..] == Digits(s);
    ValueUpdate(Digits(s), 0, c * FOLD);
    ShiftAll(c);
    ResidueShift(Value(Carry(s)), 2 * c);
  }

  // ---- Bounds ----

  ghost predicate Within(s: seq<int>, bound: int) {
    |s| == LIMBS && forall i :: 0 <= i < LIMBS ==> -bound <= s[i] <= bound
  }

  /** Limbs after carries: the lowest may still be out of range by one folding. */
  ghost predicate Reduced(s: seq<int>) {
    && |s| == LIMBS && -FOLD <= s[0] < RADIX + FOLD
    && forall i :: 1 <= i < LIMBS ==> 0 <= s[i] < RADIX
  }

  /** Limbs that are all digits. */
  ghost predicate Canonical(s: seq<int>) {
    |s| == LIMBS && forall i :: 0 <= i < LIMBS ==> 0 <= s[i] < RADIX
  }

  const WIDE: int := 0x4000_0000_0000_0000
  const CARRIED: int := 0x8000_0000_0000

  lemma {:induction false} CarryBounded(s: seq<int>, i: nat)
    requires Within(s, WIDE) && i <= LIMBS
    ensures -CARRIED <= CarryAt(s, i) <= CARRIED
    decreases i
  {
    if i > 0 {
      CarryBounded(s, i - 1);
    }
  }

  /** The carry of limbs already in range but the lowest decays to a unit. */
  lemma {:induction false} CarryDecays(s: seq<int>, i: nat)
    requires |s| == LIMBS && 1 <= i <= LIMBS
    requires -0x20_0000_0000_0000 <= s[0] <= 0x20_0000_0000_0000
    requires forall i :: 1 <= i < LIMBS ==> 0 <= s[i] < RADIX
    ensures -0x20_0000_0000 <= CarryAt(s, i) <= 0x20_0000_0000
    ensures i >= 2 ==> -0x40_0000 <= CarryAt(s, i) <= 0x40_0000
    ensures i >= 3 ==> -0x80 <= CarryAt(s, i) <= 0x80
    ensures i >= 4 ==> -1 <= CarryAt(s, i) <= 1
    decreases i
  {
    if i > 1 {
      CarryDecays(s, i - 1);
    } else {
      assert CarryAt(s, 0) == 0;
    }
  }

  lemma {:induction false} CarryLimb(s: seq<int>, i: nat)
    requires |s| == LIMBS && 1 <= i < LIMBS
    ensures 0 <= Carry(s)[i] < RADIX
  {
    SplitLimb(s, i);
  }

  lemma {:induction false} CarryLimbs(s: seq<int>)
    requires |s| == LIMBS
    ensures forall i :: 1 <= i < LIMBS ==> 0 <= Carry(s)[i] < RADIX
  {
    forall i | 1 <= i < LIMBS
      ensures 0 <= Carry(s)[i] < RADIX
    {
      CarryLimb(s, i);
    }
  }

  lemma {:induction false} CarryOnce(s: seq<int>)
    requires Within(s, WIDE)
    ensures Within(Carry(s), 0x20_0000_0000_0000)
    ensures forall i :: 1 <= i < LIMBS ==> 0 <= Carry(s)[i] < RADIX
  {
    CarryLimbs(s);
    CarryBounded(s, LIMBS);
    SplitLimb(s, 0);
    assert Carry(s)[0] == DigitAt(s, 0) + CarryAt(s, LIMBS) * FOLD;
    hide CarryAt, DigitAt, Carry;
  }

  /** Two passes reduce any limbs of sixty-two bits. */
  lemma {:induction false} CarryTwice(s: seq<int>)
    requires Within(s, WIDE)
    ensures Within(Carry(s), WIDE) && Reduced(Carry(Carry(s)))
  {
    CarryOnce(s);
    var t := Carry(s);
    CarryLimbs(t);
    CarryDecays(t, LIMBS);
    SplitLimb(t, 0);
    assert Carry(t)[0] == DigitAt(t, 0) + CarryAt(t, LIMBS) * FOLD;
    hide CarryAt, DigitAt, Carry;
  }

  lemma {:induction false} CarryUnit(s: seq<int>, i: nat)
    requires Reduced(s) && 1 <= i <= LIMBS
    ensures s[0] < 0 ==> -1 <= CarryAt(s, i) <= 0
    ensures 0 <= s[0] < RADIX ==> CarryAt(s, i) == 0
    ensures s[0] >= RADIX ==> 0 <= CarryAt(s, i) <= 1
    decreases i
  {
    if i > 1 {
      CarryUnit(s, i - 1);
    } else {
      assert CarryAt(s, 0) == 0;
    }
  }

  /** A third pass leaves only digits. */
  lemma {:induction false} CarryThrice(s: seq<int>)
    requires Reduced(s)
    ensures Within(s, WIDE) && Canonical(Carry(s))
  {
    CarryLimbs(s);
    CarryUnit(s, LIMBS);
    CarryUnit(s, 1);
    SplitLimb(s, 0);
    assert CarryAt(s, 0) == 0;
    assert Carry(s)[0] == DigitAt(s, 0) + CarryAt(s, LIMBS) * FOLD;
    hide CarryAt, DigitAt, Carry;
  }

  lemma {:induction false} CanonicalBound(s: seq<int>, i: nat)
    requires i <= |s| && forall i :: 0 <= i < |s| ==> 0 <= s[i] < RADIX
    ensures 0 <= Value(s[i..]) < Shift(1, |s| - i)
    decreases |s| - i
  {
    if i < |s| {
      CanonicalBound(s, i + 1);
      assert s[i..][1..] == s[i + 1..];
    }
  }
}
