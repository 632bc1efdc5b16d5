/** The Poly1305 one time authenticator: sequential and lane parallel blocks, buffered
    writes and the final reduction, against section 2.5 of RFC 8439.
 */
module Poly1305 {
  import opened Words
  import opened PolyLimbs
  import opened PolyFinish

  const BLOCK: nat := 16

  // ---- The standard ----

  /** The numbers of the message: sixteen bytes each, with one byte of value one appended. */
  ghost function Numbers(message: seq<byte>): seq<nat> {
    if |message| == 0 then []
    else if |message| < BLOCK then [LittleEndian(message + [1])]
    else [LittleEndian(message[..BLOCK] + [1])] + Numbers(message[BLOCK..])
  }

  /** The accumulator of the standard, from a given value. */
  ghost function Horner(acc: int, numbers: seq<nat>, r: int): int
    decreases |numbers|
  {
    if |numbers| == 0 then acc else Horner((acc + numbers[0]) * r, numbers[1..], r)
  }

  ghost function Tag(key: seq<byte>, message: seq<byte>): seq<byte>
    requires |key| == 32
  {
    var r, s := BitAnd(LittleEndian(key[..16]), CLAMP), LittleEndian(key[16..]);
    ToLittleEndian((Horner(0, Numbers(message), r) % PRIME + s) % POW128, 16)
  }

  // ---- Horner evaluation ----

  lemma {:induction false} HornerCongruent(a: int, b: int, numbers: seq<nat>, r: int)
    requires Congruent(a, b)
    ensures Congruent(Horner(a, numbers, r), Horner(b, numbers, r))
    decreases |numbers|
  {
    if |numbers| > 0 {
      CongruentSum(a, b, numbers[0], numbers[0]);
      CongruentProduct(a + numbers[0], b + numbers[0], r);
      HornerCongruent((a + numbers[0]) * r, (b + numbers[0]) * r, numbers[1..], r);
    }
  }

  lemma {:induction false} HornerAppend(acc: int, x: seq<nat>, y: seq<nat>, r: int)
    ensures Horner(acc, x + y, r) == Horner(Horner(acc, x, r), y, r)
    decreases |x|
  {
    if |x| == 0 {
      assert x + y == y;
    } else {
      HornerAppend((acc + x[0]) * r, x[1..], y, r);
      assert (x + y)[1..] == x[1..] + y;
    }
  }

  /** Each number times the power of r it is left with: the polynomial of the message. */
  ghost function Polynomial(numbers: seq<nat>, r: int): int {
    if |numbers| == 0 then 0 else numbers[0] * Power(r, |numbers|) + Polynomial(numbers[1..], r)
  }

  lemma {:induction false} HornerIsPolynomial(acc: int, numbers: seq<nat>, r: int)
    ensures Horner(acc, numbers, r) == acc * Power(r, |numbers|) + Polynomial(numbers, r)
    decreases |numbers|
  {
    if |numbers| > 0 {
      var m, p := numbers[0], Power(r, |numbers| - 1);
      HornerIsPolynomial((acc + m) * r, numbers[1..], r);
      ShiftPower(acc, m, r, p);
    }
  }

  lemma {:induction false} ShiftPower(acc: int, m: int, r: int, p: int)
    ensures ((acc + m) * r) * p == acc * (r * p) + m * (r * p)
  {
    assert ((acc + m) * r) * p == (acc + m) * (r * p);
  }

  // ---- Lanes ----

  /** Lane i of a group, by the power of r that separates it from the end of the group. */
  ghost function Combine(lanes: seq<int>, r: int): int {
    if |lanes| == 0 then 0 else lanes[0] * Power(r, |lanes|) + Combine(lanes[1..], r)
  }

  /** Advancing every lane by r^lanes and adding a group is Horner evaluation of the group. */
  lemma {:induction false} CombineStep(lanes: seq<int>, group: seq<nat>, next: seq<int>, r: int, advance: int)
    requires |lanes| == |group| == |next|
    requires forall i :: 0 <= i < |lanes| ==> next[i] == lanes[i] * advance + group[i]
    ensures Combine(next, r) == Combine(lanes, r) * advance + Polynomial(group, r)
    decreases |lanes|
  {
    if |lanes| > 0 {
      CombineStep(lanes[1..], group[1..], next[1..], r, advance);
      var p := Power(r, |lanes|);
      LaneStep(lanes[0], advance, group[0], p);
      var rest := Combine(lanes[1..], r);
      assert (lanes[0] * p + rest) * advance == (lanes[0] * p) * advance + rest * advance;
    }
  }

  lemma {:induction false} LaneStep(a: int, advance: int, m: int, p: int)
    ensures (a * advance + m) * p == (a * p) * advance + m * p
  {
  }

  /** The numbers of whole blocks, with the given high bit. */
  ghost function BlockNumbers(data: seq<byte>, hibit: nat): seq<nat> {
    if |data| < BLOCK then [] else [LittleEndian(data[..BLOCK]) + B4 * hibit] + BlockNumbers(data[BLOCK..], hibit)
  }

  lemma {:induction false} BlockNumbersAppend(a: seq<byte>, b: seq<byte>, hibit: nat)
    requires |a| % BLOCK == 0
    ensures BlockNumbers(a + b, hibit) == BlockNumbers(a, hibit) + BlockNumbers(b, hibit)
    decreases |a|
  {
    hide LittleEndian;
    if |a| == 0 {
      assert a + b == b;
    } else {
      BlockNumbersAppend(a[BLOCK..], b, hibit);
      BlockNumbersFirst(a, hibit);
      BlockNumbersFirst(a + b, hibit);
      hide BlockNumbers;
      assert (a + b)[..BLOCK] == a[..BLOCK] && (a + b)[BLOCK..] == a[BLOCK..] + b;
    }
  }

  lemma {:induction false} BlockNumbersFirst(data: seq<byte>, hibit: nat)
    requires |data| >= BLOCK
    ensures BlockNumbers(data, hibit) ==
            [LittleEndian(data[..BLOCK]) + B4 * hibit] + BlockNumbers(data[BLOCK..], hibit)
  {
  }

  lemma {:induction false} BlockNumbersAt(data: seq<byte>, hibit: nat, i: nat)
    requires (i + 1) * BLOCK <= |data|
    ensures i < |BlockNumbers(data, hibit)|
    ensures BlockNumbers(data, hibit)[i] == LittleEndian(data[i * BLOCK..(i + 1) * BLOCK]) + B4 * hibit
    decreases i
  {
    hide LittleEndian;
    assert BlockNumbers(data, hibit) ==
           [LittleEndian(data[..BLOCK]) + B4 * hibit] + BlockNumbers(data[BLOCK..], hibit);
    if i > 0 {
      BlockNumbersAt(data[BLOCK..], hibit, i - 1);
      hide BlockNumbers;
      assert data[BLOCK..][(i - 1) * BLOCK..i * BLOCK] == data[i * BLOCK..(i + 1) * BLOCK];
    } else {
      assert data[0..BLOCK] == data[..BLOCK];
    }
  }

  lemma {:induction false} BlockNumbersCount(data: seq<byte>, hibit: nat)
    ensures |BlockNumbers(data, hibit)| == |data| / BLOCK
    decreases |data|
  {
    if |data| >= BLOCK {
      BlockNumbersCount(data[BLOCK..], hibit);
    }
  }

  // ---- Sums over lanes ----

  /** Lane sums, modulo the word (so that their order does not matter). */
  function SumLanes(lanes: seq<Limbs>): Limbs {
    if |lanes| == 0 then Limbs(0, 0, 0, 0, 0) else Plus(lanes[0], SumLanes(lanes[1..]))
  }

  /** Limbs of unreduced products of a count of lanes. */
  predicate Products(d: Limbs, count: nat) {
    d.l0 <= count * (5 * (A * W)) && d.l1 <= count * (5 * (A * W)) && d.l2 <= count * (5 * (A * W)) &&
    d.l3 <= count * (5 * (A * W)) && d.l4 <= count * (A * W)
  }

  lemma {:induction false} PlusProducts(a: Limbs, b: Limbs, count: nat)
    requires Products(a, 1) && Products(b, count) && count < 8
    ensures Products(Plus(a, b), count + 1) && Value(Plus(a, b)) == Value(a) + Value(b)
  {
    hide Add;
    assert (count + 1) * (5 * (A * W)) == count * (5 * (A * W)) + 5 * (A * W) <= 8 * (5 * (A * W)) < POW64;
    AddExact(a.l0, b.l0);
    AddExact(a.l1, b.l1);
    AddExact(a.l2, b.l2);
    AddExact(a.l3, b.l3);
    AddExact(a.l4, b.l4);
  }

  /** The sum of the lanes' products is congruent to the recombination of the lanes. */
  lemma {:induction false} SumCongruent(products: seq<Limbs>, exact: seq<int>, r: int)
    requires |products| == |exact| <= 8
    requires forall i :: 0 <= i < |exact| ==> Products(products[i], 1)
    requires forall i :: 0 <= i < |exact| ==> Congruent(Value(products[i]), exact[i] * Power(r, |exact| - i))
    ensures Products(SumLanes(products), |exact|)
    ensures Congruent(Value(SumLanes(products)), Combine(exact, r))
    decreases |exact|
  {
    hide Value, Plus;
    if |exact| == 0 {
      ZeroValue();
    } else {
      SumCongruent(products[1..], exact[1..], r);
      PlusProducts(products[0], SumLanes(products[1..]), |exact| - 1);
      CongruentSum(Value(products[0]), exact[0] * Power(r, |exact|),
                   Value(SumLanes(products[1..])), Combine(exact[1..], r));
    }
  }

  lemma {:induction false} ZeroValue()
    ensures Value(Limbs(0, 0, 0, 0, 0)) == 0
  {
  }

  // ---- The ladder of powers ----

  ghost predicate IsPower(a: Limbs, r: Limbs, n: nat) {
    Reduced(a) && Congruent(Value(a), Power(Value(r), n))
  }

  /** The ascending powers of r, one for each lane. */
  method Ladder(r: Limbs, count: nat) returns (ladder: seq<Limbs>)
    requires Reduced(r) && count > 0
    ensures |ladder| == count && forall k :: 0 <= k < count ==> IsPower(ladder[k], r, k + 1)
  {
    hide Step, Value, Reduced;
    FirstPower(r);
    ladder := [r];
    for power := 1 to count
      invariant |ladder| == power
      invariant forall k :: 0 <= k < power ==> IsPower(ladder[k], r, k + 1)
    {
      NextPower(ladder[power - 1], r, power);
      ladder := ladder + [Step(false, ladder[power - 1], r)];
    }
  }

  lemma {:induction false} FirstPower(r: Limbs)
    requires Reduced(r)
    ensures IsPower(r, r, 1)
  {
    assert Power(Value(r), 1) == Value(r) * Power(Value(r), 0);
  }

  lemma {:induction false} NextPower(a: Limbs, r: Limbs, n: nat)
    requires IsPower(a, r, n) && Reduced(r)
    ensures IsPower(Step(false, a, r), r, n + 1)
  {
    hide Step, Value;
    var v := Value(r);
    StepCongruent(false, a, r);
    CongruentProduct(Value(a), Power(v, n), v);
    assert Power(v, n + 1) == v * Power(v, n);
    assert Value(a) * v == v * Value(a);
  }

  // ---- Lane parallel blocks ----

  /** The blocks of one group, one for each lane. */
  function LoadGroup(data: seq<byte>, count: nat, hibit: nat): (group: seq<Limbs>)
    requires |data| == count * BLOCK
    ensures |group| == count
  {
    seq(count, i requires 0 <= i < count => LoadAt(data, i, hibit))
  }

  function LoadAt(data: seq<byte>, i: nat, hibit: nat): Limbs
    requires (i + 1) * BLOCK <= |data|
  {
    Load(data[i * BLOCK..(i + 1) * BLOCK], hibit)
  }

  lemma {:induction false} LoadAtExact(data: seq<byte>, i: nat, hibit: nat)
    requires (i + 1) * BLOCK <= |data| && (hibit == HIGH_BIT || hibit == 0)
    ensures Loaded(LoadAt(data, i, hibit))
    ensures i < |BlockNumbers(data, hibit)| && Value(LoadAt(data, i, hibit)) == BlockNumbers(data, hibit)[i]
  {
    hide Load, Value, BlockNumbers;
    LoadExact(data[i * BLOCK..(i + 1) * BLOCK], hibit);
    BlockNumbersAt(data, hibit, i);
  }

  ghost predicate Tracks(a: seq<Limbs>, exact: seq<int>) {
    |a| == |exact| && forall i :: 0 <= i < |a| ==> Summed(a[i]) && Congruent(Value(a[i]), exact[i])
  }

  /** The first group, with the accumulator folded into lane zero. */
  lemma {:induction false} FirstGroup(h: Limbs, data: seq<byte>, count: nat, hibit: nat, r: int, a: seq<Limbs>)
    returns (exact: seq<int>)
    requires Reduced(h) && count > 0 && |data| == count * BLOCK && (hibit == HIGH_BIT || hibit == 0)
    requires var group := LoadGroup(data, count, hibit); a == [Plus(h, group[0])] + group[1..]
    ensures Tracks(a, exact)
    ensures Combine(exact, r) == Horner(Value(h), BlockNumbers(data, hibit), r)
  {
    hide LoadAt, Value, Plus, BlockNumbers, Combine, Horner, Polynomial;
    var numbers := BlockNumbers(data, hibit);
    BlockNumbersCount(data, hibit);
    exact := [Value(h) + numbers[0]] + numbers[1..];
    forall i | 0 <= i < count
      ensures Summed(a[i]) && Congruent(Value(a[i]), exact[i])
    {
      LoadAtExact(data, i, hibit);
      if i == 0 {
        PlusExact(h, LoadAt(data, 0, hibit));
      }
    }
    CombineFirst(Value(h), numbers, exact, r);
    HornerIsPolynomial(Value(h), numbers, r);
  }

  lemma {:induction false} CombineFirst(h: int, numbers: seq<nat>, exact: seq<int>, r: int)
    requires |numbers| > 0 && exact == [h + numbers[0]] + numbers[1..]
    ensures Combine(exact, r) == h * Power(r, |numbers|) + Polynomial(numbers, r)
  {
    CombineIsPolynomial(numbers[1..], exact[1..], r);
    var p := Power(r, |numbers|);
    assert (h + numbers[0]) * p == h * p + numbers[0] * p;
  }

  lemma {:induction false} CombineIsPolynomial(numbers: seq<nat>, exact: seq<int>, r: int)
    requires |numbers| == |exact| && forall i :: 0 <= i < |numbers| ==> exact[i] == numbers[i]
    ensures Combine(exact, r) == Polynomial(numbers, r)
    decreases |numbers|
  {
    if |numbers| > 0 {
      CombineIsPolynomial(numbers[1..], exact[1..], r);
    }
  }

  /** Every lane advanced by the high power, with its block of the next group added. */
  function AdvanceLanes(a: seq<Limbs>, rn: Limbs, group: seq<Limbs>): (next: seq<Limbs>)
    requires |a| == |group|
    ensures |next| == |a|
  {
    seq(|a|, i requires 0 <= i < |a| => Plus(Step(true, a[i], rn), group[i]))
  }

  lemma {:induction false} LaneAdvances(a: Limbs, x: int, rn: Limbs, advance: int, m: Limbs)
    requires Summed(a) && Congruent(Value(a), x)
    requires Reduced(rn) && Congruent(Value(rn), advance) && Loaded(m)
    ensures Summed(Plus(Step(true, a, rn), m))
    ensures Congruent(Value(Plus(Step(true, a, rn), m)), x * advance + Value(m))
  {
    hide Step, Value, Plus;
    StepCongruent(true, a, rn);
    PlusExact(Step(true, a, rn), m);
    CongruentProduct(Value(a), x, Value(rn));
    CongruentProduct(Value(rn), advance, x);
    CongruentSum(Value(Step(true, a, rn)), x * advance, Value(m), Value(m));
  }

  lemma {:induction false} GroupAdvances(a: seq<Limbs>, exact: seq<int>, rn: Limbs, advance: int,
                                         data: seq<byte>, hibit: nat, r: int)
    returns (next: seq<int>)
    requires Tracks(a, exact) && Reduced(rn) && Congruent(Value(rn), advance)
    requires |data| == |a| * BLOCK && (hibit == HIGH_BIT || hibit == 0) && advance == Power(r, |a|)
    ensures Tracks(AdvanceLanes(a, rn, LoadGroup(data, |a|, hibit)), next)
    ensures Combine(next, r) == Horner(Combine(exact, r), BlockNumbers(data, hibit), r)
  {
    hide LoadAt, Value, Plus, Step, BlockNumbers, Combine, Horner, Polynomial, Power, Congruent;
    var numbers := BlockNumbers(data, hibit);
    BlockNumbersCount(data, hibit);
    next := seq(|a|, i requires 0 <= i < |a| => exact[i] * advance + numbers[i]);
    forall i | 0 <= i < |a|
      ensures Summed(AdvanceLanes(a, rn, LoadGroup(data, |a|, hibit))[i])
      ensures Congruent(Value(AdvanceLanes(a, rn, LoadGroup(data, |a|, hibit))[i]), next[i])
    {
      LoadAtExact(data, i, hibit);
      LaneAdvances(a[i], exact[i], rn, advance, LoadAt(data, i, hibit));
    }
    CombineStep(exact, numbers, next, r, advance);
    HornerIsPolynomial(Combine(exact, r), numbers, r);
  }

  /** Each lane times its descending power: lane zero is the oldest and takes the highest. */
  function WeighLanes(a: seq<Limbs>, ladder: seq<Limbs>): (products: seq<Limbs>)
    requires |a| == |ladder|
    ensures |products| == |a|
  {
    seq(|a|, i requires 0 <= i < |a| => Weigh(a[i], ladder[|a| - 1 - i]))
  }

  function Weigh(a: Limbs, w: Limbs): Limbs {
    Multiply(true, a, w, Scale(true, w))
  }

  lemma {:induction false} WeighExact(a: Limbs, x: int, w: Limbs, r: Limbs, n: nat)
    requires Summed(a) && Congruent(Value(a), x) && IsPower(w, r, n)
    ensures Products(Weigh(a, w), 1) && Congruent(Value(Weigh(a, w)), x * Power(Value(r), n))
  {
    hide Multiply, Scale, Value, Power, Beyond;
    MultiplyExact(true, a, w);
    Multiple(Value(Weigh(a, w)), Beyond(a, w));
    CongruentProduct(Value(a), x, Value(w));
    CongruentProduct(Value(w), Power(Value(r), n), x);
  }

  lemma {:induction false} LanesRecombine(a: seq<Limbs>, exact: seq<int>, ladder: seq<Limbs>, r: Limbs)
    requires Tracks(a, exact) && |ladder| == |a| <= 8
    requires forall k :: 0 <= k < |ladder| ==> IsPower(ladder[k], r, k + 1)
    ensures var h := Reduce(false, SumLanes(WeighLanes(a, ladder)));
      Reduced(h) && Congruent(Value(h), Combine(exact, Value(r)))
  {
    hide Weigh, Value, Power, Combine, Reduce, IsPower, SumLanes, Congruent;
    var products := WeighLanes(a, ladder);
    forall i | 0 <= i < |a|
      ensures Products(products[i], 1)
      ensures Congruent(Value(products[i]), exact[i] * Power(Value(r), |exact| - i))
    {
      WeighExact(a[i], exact[i], ladder[|a| - 1 - i], r, |a| - i);
    }
    SumCongruent(products, exact, Value(r));
    ReduceProducts(SumLanes(products), |a|);
    CongruentChain(Value(Reduce(false, SumLanes(products))), Value(SumLanes(products)), Combine(exact, Value(r)));
  }

  lemma {:induction false} CongruentChain(a: int, b: int, c: int)
    requires Congruent(a, b) && Congruent(b, c)
    ensures Congruent(a, c)
  {
  }

  lemma {:induction false} ReduceProducts(d: Limbs, count: nat)
    requires Products(d, count) && count <= 8
    ensures Reduced(Reduce(false, d)) && Congruent(Value(Reduce(false, d)), Value(d))
  {
    hide Reduce, Value;
    MulMonotone(5 * (A * W), count, 8);
    MulMonotone(A * W, count, 8);
    assert count * (5 * (A * W)) == (5 * (A * W)) * count && count * (A * W) == (A * W) * count;
    var carried := ReduceExact(false, d);
    Multiple(Value(Reduce(false, d)), carried);
  }

  /** A whole number of times size. */
  ghost predicate IsWhole(n: int, size: nat)
    requires size > 0
    decreases n
  {
    n == 0 || (n >= size && IsWhole(n - size, size))
  }

  /** Whole groups of blocks at count lanes, none unless there are two groups or more. */
  method XBlocks(count: nat, data: seq<byte>, hibit: nat, r: Limbs, h: Limbs)
    returns (next: Limbs, consumed: nat)
    requires 0 < count <= 8 && |data| % BLOCK == 0 && (hibit == HIGH_BIT || hibit == 0)
    requires Reduced(r) && Reduced(h)
    ensures consumed <= |data| && consumed % BLOCK == 0 && IsWhole(consumed, count * BLOCK)
    ensures if |data| >= 2 * (count * BLOCK) then |data| - consumed < count * BLOCK else consumed == 0
    ensures Reduced(next)
    ensures Congruent(Value(next), Horner(Value(h), BlockNumbers(data[..consumed], hibit), Value(r)))
  {
    hide Value, Combine, Horner, BlockNumbers, Reduced, IsPower, Tracks, LoadGroup, AdvanceLanes, WeighLanes,
         SumLanes, Plus, Congruent, Power, Reduce;
    next, consumed := h, 0;
    var size := count * BLOCK;
    if |data| < 2 * size {
      NoBlocks(h, hibit, r);
      assert data[..0] == [];
      return;
    }
    var ladder := Ladder(r, count);
    var rn := ladder[count - 1];
    assert IsPower(rn, r, count);
    PowerReduced(rn, r, count);
    var group := LoadGroup(data[..size], count, hibit);
    var a := [Plus(h, group[0])] + group[1..];
    ghost var exact := FirstGroup(h, data[..size], count, hibit, Value(r), a);
    consumed := size;
    while |data| - consumed >= size
      invariant size <= consumed <= |data| && consumed % BLOCK == 0 && IsWhole(consumed, size)
      invariant |a| == count && Tracks(a, exact)
      invariant Combine(exact, Value(r)) == Horner(Value(h), BlockNumbers(data[..consumed], hibit), Value(r))
      decreases |data| - consumed
    {
      ghost var blocks := data[consumed..consumed + size];
      ghost var before := exact;
      exact := GroupAdvances(a, exact, rn, Power(Value(r), count), blocks, hibit, Value(r));
      HornerBlocks(Value(h), data, consumed, consumed + size, hibit, Value(r));
      group := LoadGroup(data[consumed..consumed + size], count, hibit);
      a := AdvanceLanes(a, rn, group);
      consumed := consumed + size;
      TracksLength(a, exact);
    }
    LanesRecombine(a, exact, ladder, r);
    next := Reduce(false, SumLanes(WeighLanes(a, ladder)));
  }

  lemma {:induction false} TracksLength(a: seq<Limbs>, exact: seq<int>)
    requires Tracks(a, exact)
    ensures |a| == |exact|
  {
  }

  lemma {:induction false} PowerReduced(a: Limbs, r: Limbs, n: nat)
    requires IsPower(a, r, n)
    ensures Reduced(a) && Congruent(Value(a), Power(Value(r), n))
  {
  }

  lemma {:induction false} NoBlocks(h: Limbs, hibit: nat, r: Limbs)
    ensures Congruent(Value(h), Horner(Value(h), BlockNumbers([], hibit), Value(r)))
  {
  }

  /** Evaluation up to one position of the data continues to a later one. */
  lemma {:induction false} HornerBlocks(acc: int, data: seq<byte>, from: nat, to: nat, hibit: nat, r: int)
    requires from <= to <= |data| && from % BLOCK == 0
    ensures Horner(acc, BlockNumbers(data[..to], hibit), r) ==
            Horner(Horner(acc, BlockNumbers(data[..from], hibit), r), BlockNumbers(data[from..to], hibit), r)
  {
    hide Horner, BlockNumbers;
    BlockNumbersAppend(data[..from], data[from..to], hibit);
    assert data[..to] == data[..from] + data[from..to];
    HornerAppend(acc, BlockNumbers(data[..from], hibit), BlockNumbers(data[from..to], hibit), r);
  }

  /** Blocks at eight, four and two lanes as available, and then one by one. */
  method Blocks(platform: Platform, data: seq<byte>, hibit: nat, r: Limbs, h: Limbs) returns (next: Limbs)
    requires |data| % BLOCK == 0 && (hibit == HIGH_BIT || hibit == 0) && Reduced(r) && Reduced(h)
    ensures Reduced(next)
    ensures Congruent(Value(next), Horner(Value(h), BlockNumbers(data, hibit), Value(r)))
  {
    hide Value, Horner, BlockNumbers, Reduced, Congruent;
    NoBlocks(h, hibit, r);
    next := h;
    var at := 0;
    assert data[..0] == [];
    at, next := XBlocksFrom(platform.have512, 8, data, at, hibit, r, h, next);
    at, next := XBlocksFrom(platform.have256, 4, data, at, hibit, r, h, next);
    at, next := XBlocksFrom(platform.have128, 2, data, at, hibit, r, h, next);
    while at < |data|
      invariant at <= |data| && at % BLOCK == 0 && Reduced(next)
      invariant Congruent(Value(next), Horner(Value(h), BlockNumbers(data[..at], hibit), Value(r)))
    {
      next := Block(data[at..at + BLOCK], hibit, r, next, Value(h), data[..at]);
      assert data[..at + BLOCK] == data[..at] + data[at..at + BLOCK];
      at := at + BLOCK;
    }
    assert data[..at] == data;
  }

  method XBlocksFrom(have: bool, count: nat, data: seq<byte>, from: nat, hibit: nat, r: Limbs, ghost h: Limbs,
                     current: Limbs) returns (at: nat, next: Limbs)
    requires 0 < count <= 8 && |data| % BLOCK == 0 && (hibit == HIGH_BIT || hibit == 0)
    requires Reduced(r) && Reduced(current) && from <= |data| && from % BLOCK == 0
    requires Congruent(Value(current), Horner(Value(h), BlockNumbers(data[..from], hibit), Value(r)))
    ensures from <= at <= |data| && at % BLOCK == 0 && Reduced(next)
    ensures Congruent(Value(next), Horner(Value(h), BlockNumbers(data[..at], hibit), Value(r)))
  {
    hide Value, Horner, BlockNumbers, Reduced, Congruent;
    at, next := from, current;
    if have {
      var consumed;
      next, consumed := XBlocks(count, data[from..], hibit, r, current);
      at := from + consumed;
      assert data[from..][..consumed] == data[from..at];
      HornerContinues(Value(h), data, from, at, hibit, Value(r), Value(current), Value(next));
    }
  }

  lemma {:induction false} HornerContinues(acc: int, data: seq<byte>, from: nat, at: nat, hibit: nat, r: int,
                                           current: int, next: int)
    requires from <= at <= |data| && from % BLOCK == 0
    requires Congruent(current, Horner(acc, BlockNumbers(data[..from], hibit), r))
    requires Congruent(next, Horner(current, BlockNumbers(data[from..at], hibit), r))
    ensures Congruent(next, Horner(acc, BlockNumbers(data[..at], hibit), r))
  {
    hide Horner, BlockNumbers;
    HornerBlocks(acc, data, from, at, hibit, r);
    HornerCongruent(current, Horner(acc, BlockNumbers(data[..from], hibit), r), BlockNumbers(data[from..at], hibit), r);
  }

  /** Adds one block to the accumulator and multiplies by r. */
  method Block(block: seq<byte>, hibit: nat, r: Limbs, h: Limbs, ghost acc: int, ghost before: seq<byte>)
    returns (next: Limbs)
    requires |block| == BLOCK && (hibit == HIGH_BIT || hibit == 0) && Reduced(r) && Reduced(h)
    requires |before| % BLOCK == 0
    requires Congruent(Value(h), Horner(acc, BlockNumbers(before, hibit), Value(r)))
    ensures Reduced(next)
    ensures Congruent(Value(next), Horner(acc, BlockNumbers(before + block, hibit), Value(r)))
  {
    hide Value, Reduced, Plus, Step, Load, Congruent;
    var m := Load(block, hibit);
    next := Step(false, Plus(h, m), r);
    LoadExact(block, hibit);
    PlusExact(h, m);
    StepCongruent(false, Plus(h, m), r);
    ghost var so, n := Horner(acc, BlockNumbers(before, hibit), Value(r)), Value(m);
    BlockNumbersAppend(before, block, hibit);
    OneNumber(block, hibit);
    hide BlockNumbers, Horner;
    HornerAppend(acc, BlockNumbers(before, hibit), [n], Value(r));
    HornerOne(so, n, Value(r));
    CongruentSum(Value(h), so, n, n);
    CongruentProduct(Value(h) + n, so + n, Value(r));
    CongruentChain(Value(next), (Value(h) + n) * Value(r), (so + n) * Value(r));
  }

  lemma {:induction false} OneNumber(block: seq<byte>, hibit: nat)
    requires |block| == BLOCK
    ensures BlockNumbers(block, hibit) == [LittleEndian(block) + B4 * hibit]
  {
    assert block[..BLOCK] == block && block[BLOCK..] == [];
    assert BlockNumbers([], hibit) == [];
  }

  lemma {:induction false} HornerOne(acc: int, n: nat, r: int)
    ensures Horner(acc, [n], r) == (acc + n) * r
  {
    assert [n][1..] == [];
  }

  // ---- Numbers of the message ----

  /** A whole block is padded by its high bit. */
  lemma {:induction false} PadHigh(block: seq<byte>)
    requires |block| == BLOCK
    ensures LittleEndian(block + [1]) == LittleEndian(block) + B4 * HIGH_BIT
  {
    hide LittleEndian;
    LittleEndianAppend(block, [1]);
    PadOne();
  }

  lemma {:induction false} PadOne()
    ensures LittleEndian([1]) == 1 && Pow256(16) == B4 * HIGH_BIT
  {
    assert [1][1..] == [];
    assert Pow256(4) == 0x1_0000_0000;
    assert Pow256(8) == 0x1_0000_0000 * Pow256(4);
    assert Pow256(12) == 0x1_0000_0000 * Pow256(8);
    assert Pow256(16) == 0x1_0000_0000 * Pow256(12);
  }

  /** The numbers of a message are those of its whole blocks and of the rest. */
  lemma {:induction false} NumbersSplit(whole: seq<byte>, rest: seq<byte>)
    requires |whole| % BLOCK == 0 && |rest| < BLOCK
    ensures Numbers(whole + rest) == BlockNumbers(whole, HIGH_BIT) + Numbers(rest)
    decreases |whole|
  {
    if |whole| == 0 {
      assert whole + rest == rest;
    } else {
      hide LittleEndian;
      var message := whole + rest;
      assert message[..BLOCK] == whole[..BLOCK] && message[BLOCK..] == whole[BLOCK..] + rest;
      NumbersSplit(whole[BLOCK..], rest);
      PadHigh(whole[..BLOCK]);
    }
  }

  lemma {:induction false} ZeroPadded(bytes: seq<byte>, zeros: nat)
    ensures LittleEndian(bytes + seq(zeros, _ => 0)) == LittleEndian(bytes)
  {
    LittleEndianAppend(bytes, seq(zeros, _ => 0));
    ZerosAreZero(zeros);
  }

  lemma {:induction false} ZerosAreZero(zeros: nat)
    ensures LittleEndian(seq(zeros, _ => 0)) == 0
  {
    if zeros > 0 {
      var s: seq<byte> := seq(zeros, _ => 0);
      assert s[1..] == seq(zeros - 1, _ => 0);
      ZerosAreZero(zeros - 1);
    }
  }

  // ---- The authenticator ----

  /** `message` is all that has been written. */
  class Authenticator {
    const platform: Platform
    const r: Limbs
    const pad: (nat, nat, nat, nat)
    ghost const key: seq<byte>

    var h: Limbs
    var offset: nat
    const buffer: array<byte>
    ghost var message: seq<byte>

    /** The accumulator holds the whole blocks of the message, the buffer holds the rest. */
    ghost predicate Valid()
      reads this, buffer
    {
      && |key| == 32 && buffer.Length == BLOCK && offset < BLOCK && offset <= |message|
      && Keyed(key, r, pad) && Reduced(r) && Reduced(h)
      && var whole := |message| - offset;
         && whole % BLOCK == 0 && buffer[..offset] == message[whole..]
         && Congruent(Value(h), Horner(0, BlockNumbers(message[..whole], HIGH_BIT), Value(r)))
    }

    constructor (platform: Platform, key: seq<byte>)
      requires |key| == 32
      ensures Valid() && fresh(buffer)
      ensures this.key == key && message == []
    {
      hide *;
      this.platform := platform;
      this.key := key;
      r := ClampLimbs(key[..16]);
      pad := PadOf(key);
      h := Limbs(0, 0, 0, 0, 0);
      offset := 0;
      buffer := new byte[BLOCK](_ => 0);
      message := [];
      new;
      KeyedExact(key);
      KeyedReduced(key, r, pad);
      ZeroReduced();
      ZeroValue();
      NoBlocks(h, HIGH_BIT, r);
      Fresh();
    }

    lemma {:induction false} Fresh()
      requires |key| == 32 && buffer.Length == BLOCK && offset == 0 && message == []
      requires Keyed(key, r, pad) && Reduced(r) && Reduced(h)
      requires Congruent(Value(h), Horner(0, BlockNumbers([], HIGH_BIT), Value(r)))
      ensures Valid()
    {
      hide Horner, BlockNumbers, Value, Reduced, Keyed, Congruent;
      assert message[..0] == [] && message[0..] == [] && buffer[..0] == [];
    }

    /** Any split of the message into writes reaches the same state of the message. */
    method Write(data: seq<byte>)
      requires Valid()
      modifies this, buffer
      ensures Valid() && message == old(message) + data
    {
      hide Horner, BlockNumbers, Value, Reduced, Keyed, Congruent;
      var bytes := data;
      if offset != 0 {
        bytes := Fill(data);
      }
      if |bytes| != 0 {
        WriteBlocks(bytes);
      }
    }

    /** Completes the buffered block, and returns what is left of the data. */
    method Fill(data: seq<byte>) returns (rest: seq<byte>)
      requires Valid() && offset > 0
      modifies this, buffer
      ensures Valid()
      ensures message + rest == old(message) + data
      ensures rest == [] || offset == 0
    {
      hide Horner, BlockNumbers, Value, Reduced, Keyed, Congruent;
      var fill := if |data| < BLOCK - offset then |data| else BLOCK - offset;
      ghost var whole := |message| - offset;
      AppendParts(message, data, whole, fill);
      Copy(data[..fill], offset);
      message := message + data[..fill];
      rest := data[fill..];
      offset := offset + fill;
      if offset == BLOCK {
        h := this.Process(buffer[..], message[..whole]);
        assert message == message[..whole] + buffer[..];
        WholeSum(whole, BLOCK);
        offset := 0;
        assert buffer[..0] == [] && message[|message|..] == [] && message[..|message|] == message;
      }
    }

    /** Copies into the buffer at an offset, and leaves what precedes it. */
    method Copy(data: seq<byte>, at: nat)
      requires buffer.Length == BLOCK && at + |data| <= BLOCK
      modifies buffer
      ensures buffer[..at + |data|] == old(buffer[..at]) + data
    {
      for i := 0 to |data|
        invariant buffer[..at + i] == old(buffer[..at]) + data[..i]
      {
        buffer[at + i] := data[i];
        assert buffer[..at + i + 1] == buffer[..at + i] + [data[i]];
      }
      assert data[..|data|] == data;
    }

    /** The accumulator past more whole blocks. */
    method Process(data: seq<byte>, ghost before: seq<byte>) returns (next: Limbs)
      requires |data| % BLOCK == 0 && |before| % BLOCK == 0 && Reduced(r) && Reduced(h)
      requires Congruent(Value(h), Horner(0, BlockNumbers(before, HIGH_BIT), Value(r)))
      ensures Reduced(next)
      ensures Congruent(Value(next), Horner(0, BlockNumbers(before + data, HIGH_BIT), Value(r)))
    {
      hide Horner, BlockNumbers, Value, Reduced, Congruent;
      next := Blocks(platform, data, HIGH_BIT, r, h);
      ghost var all := before + data;
      assert all[..|before|] == before && all[|before|..|all|] == data && all[..|all|] == all;
      HornerContinues(0, all, |before|, |all|, HIGH_BIT, Value(r), Value(h), Value(next));
    }

    /** Processes whole blocks, and buffers the remainder. */
    method WriteBlocks(bytes: seq<byte>)
      requires Valid() && offset == 0
      modifies this, buffer
      ensures Valid() && message == old(message) + bytes
    {
      hide Horner, BlockNumbers, Value, Reduced, Keyed, Congruent, WholeSize;
      var whole := WholeSize(|bytes|);
      WholeSum(|message|, whole);
      WholeWritten(message, bytes, whole);
      h := Process(bytes[..whole], message);
      Copy(bytes[whole..], 0);
      assert buffer[..|bytes| - whole] == bytes[whole..];
      message := message + bytes;
      offset := |bytes| - whole;
    }

    /** Pads the buffered partial block with a byte of one and then zeros. */
    method FillZeros()
      requires buffer.Length == BLOCK && offset < BLOCK
      modifies buffer
      ensures buffer[..] == old(buffer[..offset]) + [1] + seq(BLOCK - offset - 1, _ => 0)
    {
      buffer[offset] := 1;
      ghost var head := old(buffer[..offset]) + [1];
      assert buffer[..offset + 1] == head;
      for i := offset + 1 to BLOCK
        invariant buffer[..i] == head + seq(i - offset - 1, _ => 0)
      {
        buffer[i] := 0;
        assert buffer[..i + 1] == buffer[..i] + [0];
        assert seq(i - offset, _ => 0 as byte) == seq(i - offset - 1, _ => 0 as byte) + [0];
      }
      assert buffer[..BLOCK] == buffer[..];
    }

    /** The tag of the message written, however it was split. The authenticator is then spent. */
    method Flush() returns (tag: seq<byte>)
      requires Valid()
      modifies this, buffer
      ensures tag == Tag(key, old(message))
    {
      hide Horner, BlockNumbers, Value, Reduced, Keyed, Congruent, Numbers, Tag, Finish;
      var next := h;
      ghost var whole := |message| - offset;
      ghost var rest := message[whole..];
      assert message == message[..whole] + rest;
      NumbersSplit(message[..whole], rest);
      if offset != 0 {
        FillZeros();
        next := Blocks(platform, buffer[..], 0, r, h);
        LastBlock(message[..whole], rest, buffer[..], Value(r), Value(h), Value(next));
      } else {
        NoNumbers();
        assert BlockNumbers(message[..whole], HIGH_BIT) + [] == BlockNumbers(message[..whole], HIGH_BIT);
      }
      tag := Finish(next, pad);
      TagExact(key, r, pad, next, message);
    }
  }

  /** The size of the whole blocks of a size. */
  function WholeSize(size: nat): (whole: nat)
    ensures whole % BLOCK == 0 && whole <= size < whole + BLOCK
  {
    size / BLOCK * BLOCK
  }

  lemma {:induction false} WholeWritten(message: seq<byte>, bytes: seq<byte>, whole: nat)
    requires whole <= |bytes|
    ensures message[..|message|] == message
    ensures (message + bytes)[..|message| + whole] == message + bytes[..whole]
    ensures (message + bytes)[|message| + whole..] == bytes[whole..]
  {
  }

  lemma {:induction false} AppendParts(message: seq<byte>, data: seq<byte>, whole: nat, fill: nat)
    requires whole <= |message| && fill <= |data|
    ensures var longer := message + data[..fill];
      && message + data == longer + data[fill..]
      && longer[..whole] == message[..whole] && longer[whole..] == message[whole..] + data[..fill]
  {
  }

  lemma {:induction false} WholeSum(a: nat, b: nat)
    requires a % BLOCK == 0 && b % BLOCK == 0
    ensures (a + b) % BLOCK == 0
  {
  }

  lemma {:induction false} NoNumbers()
    ensures Numbers([]) == []
  {
  }

  lemma {:induction false} ZeroReduced()
    ensures Reduced(Limbs(0, 0, 0, 0, 0))
  {
  }

  ghost predicate Keyed(key: seq<byte>, r: Limbs, pad: (nat, nat, nat, nat))
    requires |key| == 32
  {
    && Reduced(r) && Value(r) == BitAnd(LittleEndian(key[..16]), CLAMP)
    && pad.0 < POW32 && pad.1 < POW32 && pad.2 < POW32 && pad.3 < POW32
    && pad.0 + POW32 * pad.1 + POW64 * pad.2 + POW96 * pad.3 == LittleEndian(key[16..])
  }

  function PadOf(key: seq<byte>): (nat, nat, nat, nat)
    requires |key| == 32
  {
    (LittleEndian(key[16..20]), LittleEndian(key[20..24]), LittleEndian(key[24..28]), LittleEndian(key[28..32]))
  }

  lemma {:induction false} KeyedReduced(key: seq<byte>, r: Limbs, pad: (nat, nat, nat, nat))
    requires |key| == 32 && Keyed(key, r, pad)
    ensures Reduced(r)
  {
  }

  lemma {:induction false} KeyedExact(key: seq<byte>)
    requires |key| == 32
    ensures Keyed(key, ClampLimbs(key[..16]), PadOf(key))
  {
    hide LittleEndian, BitAnd, ClampLimbs, Value;
    ClampExact(key[..16]);
    var s := key[16..];
    LittleEndianSixteen(s);
    assert s[0..4] == key[16..20] && s[4..8] == key[20..24] && s[8..12] == key[24..28] && s[12..16] == key[28..32];
    WordBound(key[16..20]);
    WordBound(key[20..24]);
    WordBound(key[24..28]);
    WordBound(key[28..32]);
  }

  lemma {:induction false} WordBound(b: seq<byte>)
    requires |b| == 4
    ensures LittleEndian(b) < POW32
  {
    hide LittleEndian;
    LittleEndianBound(b);
    assert Pow256(4) == POW32;
  }

  /** A partial block, a byte of one and zeros make the last number of the message. */
  lemma {:induction false} LastBlock(whole: seq<byte>, rest: seq<byte>, block: seq<byte>, r: int, h: int, next: int)
    requires 0 < |rest| < BLOCK && |block| == BLOCK && block == rest + [1] + seq(BLOCK - |rest| - 1, _ => 0)
    requires Congruent(h, Horner(0, BlockNumbers(whole, HIGH_BIT), r))
    requires Congruent(next, Horner(h, BlockNumbers(block, 0), r))
    ensures Congruent(next, Horner(0, BlockNumbers(whole, HIGH_BIT) + Numbers(rest), r))
  {
    OneNumber(block, 0);
    ZeroPadded(rest + [1], BLOCK - |rest| - 1);
    assert Numbers(rest) == BlockNumbers(block, 0);
    hide Horner, BlockNumbers, Numbers;
    HornerAppend(0, BlockNumbers(whole, HIGH_BIT), Numbers(rest), r);
    HornerCongruent(h, Horner(0, BlockNumbers(whole, HIGH_BIT), r), Numbers(rest), r);
  }

  lemma {:induction false} TagExact(key: seq<byte>, r: Limbs, pad: (nat, nat, nat, nat), h: Limbs, message: seq<byte>)
    requires |key| == 32 && Keyed(key, r, pad) && Reduced(h)
    requires Congruent(Value(h), Horner(0, Numbers(message), Value(r)))
    ensures Finish(h, pad) == Tag(key, message)
  {
    hide Horner, Numbers, Value, LittleEndian, BitAnd, Finish, ToLittleEndian;
    FinishExact(h, pad, LittleEndian(key[16..]));
  }
}
