/** Golomb-coded sets of BIP158: numbers as bits, sets of hashes as coded differences, and the
    search of a set. Hashing is a parameter. */
module Golomb {
  import opened Common
  import opened Words
  import opened Bits
  import opened Sorting

  // ---- Bits ----

  ghost function Trues(count: nat): (r: seq<bool>)
    ensures |r| == count
  {
    seq(count, _ => true)
  }

  lemma {:induction false} OnesBits(count: nat)
    ensures BitsOf(Pow2(count) - 1, count) == Trues(count)
  {
    if count > 0 {
      OnesBits(count - 1);
      assert (Pow2(count) - 1) / 2 == Pow2(count - 1) - 1 && (Pow2(count) - 1) % 2 == 1;
      assert Trues(count) == Trues(count - 1) + [true];
    }
  }

  // ---- A number ----

  /** The bits of a remainder: no more than a word are written or read at once. */
  function Width(exponent: nat): (bits: nat)
    ensures bits <= 64
  {
    if exponent < 64 then exponent else 64
  }

  /** The quotient in unary, ended by a zero, and then the remainder in binary. */
  ghost function Code(value: nat, exponent: nat): seq<bool> {
    hide Pow2;
    Trues(value / Pow2(Width(exponent))) + [false] + BitsOf(value, Width(exponent))
  }

  method Encode(sink: seq<bool>, value: nat, exponent: nat) returns (out: seq<bool>)
    requires value < POW64
    ensures out == sink + Code(value, exponent)
  {
    hide BitsOf, Pow2;
    Pow2At64();
    var quotient: nat := if exponent >= 64 then 0 else value / Pow2(exponent);
    ghost var all := quotient;
    out := sink;
    while quotient >= 64
      invariant quotient <= all && out == sink + Trues(all - quotient)
    {
      OnesBits(64);
      out := WriteBits(out, POW64 - 1, 64);
      assert Trues(all - quotient) + Trues(64) == Trues(all - quotient + 64);
      quotient := quotient - 64;
    }
    var ones: nat := Pow2(quotient) - 1;
    OnesEnded(quotient);
    out := WriteBits(out, 2 * ones, quotient + 1);
    assert Trues(all - quotient) + Trues(quotient) == Trues(all);
    out := WriteBits(out, value, Width(exponent));
  }

  /** Ones moved left by one are written as ones and a zero. */
  lemma {:induction false} OnesEnded(count: nat)
    ensures BitsOf(2 * (Pow2(count) - 1), count + 1) == Trues(count) + [false]
  {
    OnesBits(count);
    hide Trues;
    assert (2 * (Pow2(count) - 1)) / 2 == Pow2(count) - 1;
  }

  ghost function Ones(bits: seq<bool>, at: nat): (count: nat)
    decreases |bits| - at
  {
    if BitAt(bits, at) then 1 + Ones(bits, at + 1) else 0
  }

  /** The number coded at a position, as a word, and the position after it. */
  ghost function DecodeAt(bits: seq<bool>, at: nat, exponent: nat): (nat, nat) {
    var quotient := Ones(bits, at);
    var rest, width := at + quotient + 1, Width(exponent);
    ((quotient * Pow2(width) + NumberOf(Slice(bits, rest, width))) % POW64, rest + width)
  }

  method Decode(bits: seq<bool>, at: nat, exponent: nat) returns (value: nat, next: nat)
    ensures (value, next) == DecodeAt(bits, at, exponent)
  {
    hide Pow2, NumberOf;
    var quotient: nat := 0;
    while BitAt(bits, at + quotient)
      invariant Ones(bits, at) == quotient + Ones(bits, at + quotient)
      decreases |bits| - (at + quotient)
    {
      quotient := quotient + 1;
    }
    var width := Width(exponent);
    var remainder := ReadBits(bits, at + quotient + 1, width);
    var shifted := if exponent >= 64 then 0 else (quotient * Pow2(exponent)) % POW64;
    Pow2At64();
    assert shifted == (quotient * Pow2(width)) % POW64;
    value := (shifted + remainder) % POW64;
    WordSum(quotient * Pow2(width), remainder);
    next := at + quotient + 1 + width;
  }

  lemma {:induction false} WordSum(a: nat, b: nat)
    ensures (a % POW64 + b) % POW64 == (a + b) % POW64
  {
  }

  /** Decoding yields every number encoded, and consumes exactly its code. */
  lemma {:induction false} DecodeCode(before: seq<bool>, value: nat, exponent: nat, after: seq<bool>)
    requires value < POW64
    ensures DecodeAt(before + Code(value, exponent) + after, |before|, exponent) ==
            (value, |before + Code(value, exponent)|)
  {
    hide Pow2, BitsOf, NumberOf, Code;
    var code := Code(value, exponent);
    var bits, at, p := before + code + after, |before|, Pow2(Width(exponent));
    CodeParts(before, value, exponent, after);
    NumberBits(value, Width(exponent));
    assert value == (value / p) * p + value % p;
  }

  /** The parts of a code where they are read. */
  lemma {:induction false} CodeParts(before: seq<bool>, value: nat, exponent: nat, after: seq<bool>)
    ensures var bits, width := before + Code(value, exponent) + after, Width(exponent);
      var q := value / Pow2(width);
      && |Code(value, exponent)| == q + 1 + width && Ones(bits, |before|) == q
      && Slice(bits, |before| + q + 1, width) == BitsOf(value, width)
  {
    hide Pow2, BitsOf;
    var code := Code(value, exponent);
    var bits, at, width := before + code + after, |before|, Width(exponent);
    var q := value / Pow2(width);
    assert code == Trues(q) + [false] + BitsOf(value, width);
    hide Code;
    OnesCount(bits, at, q);
    var rest := at + q + 1;
    forall i | 0 <= i < width
      ensures BitAt(bits, rest + i) == BitsOf(value, width)[i]
    {
      assert bits[at + (q + 1 + i)] == code[q + 1 + i];
    }
  }

  lemma {:induction false} OnesCount(bits: seq<bool>, at: nat, count: nat)
    requires at + count <= |bits| && !BitAt(bits, at + count)
    requires forall i :: at <= i < at + count ==> bits[i]
    ensures Ones(bits, at) == count
    decreases count
  {
    if count > 0 {
      OnesCount(bits, at + 1, count - 1);
    }
  }

  // ---- A set of numbers ----

  ghost predicate AreWords(values: seq<nat>) {
    forall i :: 0 <= i < |values| ==> values[i] < POW64
  }

  ghost function Last(values: seq<nat>): nat {
    if values == [] then 0 else values[|values| - 1]
  }

  /** The codes of the differences of numbers. */
  ghost function CodeAll(values: seq<nat>, exponent: nat): seq<bool> {
    if values == [] then []
    else
      var front, last := values[..|values| - 1], values[|values| - 1];
      CodeAll(front, exponent) + Code((last - Last(front)) % POW64, exponent)
  }

  method EncodeAll(sink: seq<bool>, values: seq<nat>, exponent: nat) returns (out: seq<bool>)
    ensures out == sink + CodeAll(values, exponent)
  {
    hide Code;
    out := sink;
    var previous: nat, index: nat := 0, 0;
    while index < |values|
      invariant index <= |values| && previous == Last(values[..index])
      invariant out == sink + CodeAll(values[..index], exponent)
    {
      out := Encode(out, (values[index] - previous) % POW64, exponent);
      assert values[..index + 1][..index] == values[..index];
      previous, index := values[index], index + 1;
    }
    assert values[..index] == values;
  }

  /** The codes of the first numbers begin the codes of all. */
  lemma {:induction false} CodePrefix(values: seq<nat>, k: nat, exponent: nat) returns (after: seq<bool>)
    requires k <= |values|
    ensures CodeAll(values, exponent) == CodeAll(values[..k], exponent) + after
    decreases |values| - k
  {
    hide Code;
    if k == |values| {
      assert values[..k] == values;
      after := [];
    } else {
      var rest := CodePrefix(values, k + 1, exponent);
      assert values[..k + 1][..k] == values[..k];
      after := Code((values[k] - Last(values[..k])) % POW64, exponent) + rest;
    }
  }

  /** Whether a number is found among the numbers coded from a position. */
  ghost function MatchFrom(bits: seq<bool>, at: nat, previous: nat, left: nat, range: nat, exponent: nat): bool
    decreases left
  {
    left > 0 &&
    var (delta, next) := DecodeAt(bits, at, exponent);
    var value := (previous + delta) % POW64;
    value == range || (value < range && MatchFrom(bits, next, value, left - 1, range, exponent))
  }

  /** The next number coded, from the codes of those before it. */
  lemma {:induction false} DecodeNext(values: seq<nat>, k: nat, padding: seq<bool>, exponent: nat)
    requires AreWords(values) && k < |values|
    ensures var (delta, next) :=
      DecodeAt(CodeAll(values, exponent) + padding, |CodeAll(values[..k], exponent)|, exponent);
      (Last(values[..k]) + delta) % POW64 == values[k] && next == |CodeAll(values[..k + 1], exponent)|
  {
    hide DecodeAt, Code;
    var before := CodeAll(values[..k], exponent);
    var after := CodePrefix(values, k + 1, exponent);
    assert values[..k + 1][..k] == values[..k];
    var delta := (values[k] - Last(values[..k])) % POW64;
    assert CodeAll(values, exponent) + padding == before + Code(delta, exponent) + (after + padding);
    DecodeCode(before, delta, exponent, after + padding);
    WordDifference(Last(values[..k]), values[k]);
  }

  lemma {:induction false} WordDifference(a: nat, b: nat)
    requires b < POW64
    ensures (a + (b - a) % POW64) % POW64 == b
  {
  }

  /** Numbers that do not decrease are searched up to the first that is not less. */
  lemma {:induction false} MatchRest(values: seq<nat>, k: nat, padding: seq<bool>, range: nat, exponent: nat)
    requires AreWords(values) && SortedBy(values, Less) && k <= |values|
    ensures var bits, at := CodeAll(values, exponent) + padding, |CodeAll(values[..k], exponent)|;
      MatchFrom(bits, at, Last(values[..k]), |values| - k, range, exponent) <==> range in values[k..]
    decreases |values| - k
  {
    hide DecodeAt, Code, CodeAll;
    if k < |values| {
      DecodeNext(values, k, padding, exponent);
      MatchRest(values, k + 1, padding, range, exponent);
      assert values[k..] == [values[k]] + values[k + 1..];
      RestNotLess(values, k, range);
      hide SortedBy;
    }
  }

  lemma {:induction false} RestNotLess(values: seq<nat>, k: nat, range: nat)
    requires SortedBy(values, Less) && k < |values|
    ensures values[k] > range ==> range !in values[k + 1..]
  {
    if range in values[k + 1..] {
      var i :| k + 1 <= i < |values| && values[i] == range;
      assert !Less(values[i], values[k]);
    }
  }

  method MatchRange(bits: seq<bool>, range: nat, size: nat, exponent: nat) returns (found: bool)
    ensures found == MatchFrom(bits, 0, 0, size, range, exponent)
  {
    hide DecodeAt;
    var previous: nat, at: nat, index: nat := 0, 0, 0;
    while index < size
      invariant index <= size
      invariant MatchFrom(bits, 0, 0, size, range, exponent) ==
                MatchFrom(bits, at, previous, size - index, range, exponent)
    {
      var delta, next := Decode(bits, at, exponent);
      var value := (previous + delta) % POW64;
      if value == range {
        return true;
      }
      if value > range {
        return false;
      }
      previous, at, index := value, next, index + 1;
    }
    return false;
  }

  // ---- Sets of items ----

  type Item = seq<byte>

  lemma {:induction false} RangeBound(hash: nat, bound: nat)
    requires hash < POW64
    ensures ToRange(hash, bound) <= bound
  {
    MulMonotone(bound, hash, POW64);
    assert hash * bound == bound * hash;
  }

  /** A hash scaled to a bound. */
  function ToRange(hash: nat, bound: nat): nat {
    hash * bound / POW64
  }

  /** The range of a hash in a bound: the high word of their product. */
  ghost predicate IsRange(hash: nat, bound: nat, range: nat) {
    range * 0x1_0000_0000_0000_0000 <= hash * bound < (range + 1) * 0x1_0000_0000_0000_0000
  }

  lemma {:induction false} RangeIff(hash: nat, bound: nat, range: nat)
    ensures IsRange(hash, bound, range) <==> range == ToRange(hash, bound)
  {
    var product := hash * bound;
    if IsRange(hash, bound, range) {
      DivideUnique(product, 0x1_0000_0000_0000_0000, range, product - range * 0x1_0000_0000_0000_0000);
    }
  }

  lemma {:induction false} RangeBelow(hash: nat, bound: nat)
    requires hash < POW64 && bound > 0
    ensures ToRange(hash, bound) < bound
  {
    MulMonotone(bound, hash, POW64 - 1);
    assert bound * (POW64 - 1) == bound * POW64 - bound;
    assert hash * bound == bound * hash < bound * POW64;
  }

  lemma {:induction false} RangeMonotone(a: nat, b: nat, bound: nat)
    requires a <= b
    ensures ToRange(a, bound) <= ToRange(b, bound)
  {
    MulMonotone(bound, a, b);
    assert a * bound == bound * a && b * bound == bound * b;
  }

  function RangeBy(bound: nat): nat -> nat {
    hash => ToRange(hash, bound)
  }

  function Ranges(hashes: seq<nat>, bound: nat): seq<nat> {
    Mapped(hashes, RangeBy(bound))
  }

  function Hashes(items: seq<Item>, hash: Item -> nat): seq<nat> {
    Mapped(items, hash)
  }

  lemma {:induction false} RangesSorted(hashes: seq<nat>, bound: nat)
    requires SortedBy(hashes, Less)
    ensures SortedBy(Ranges(hashes, bound), Less)
  {
    hide ToRange;
    forall i, j | 0 <= i < j < |hashes|
      ensures !Less(Ranges(hashes, bound)[j], Ranges(hashes, bound)[i])
    {
      assert !Less(hashes[j], hashes[i]);
      RangeMonotone(hashes[i], hashes[j], bound);
    }
  }

  /** Sorting hashes and then scaling them is scaling them and then sorting. */
  lemma {:induction false} SortRanges(hashes: seq<nat>, bound: nat)
    ensures Ranges(Sort(hashes, Less), bound) == Sort(Ranges(hashes, bound), Less)
  {
    hide Mapped, SortedBy, Sort;
    SortNumbers(hashes);
    var sorted := Sort(hashes, Less);
    SortNumbers(Ranges(hashes, bound));
    MappedPermuted(sorted, hashes, RangeBy(bound));
    RangesSorted(sorted, bound);
    SortedUnique(Ranges(sorted, bound), Sort(Ranges(hashes, bound), Less));
  }

  // ---- Construction ----

  /** Codes hashes that are already sorted, unless their bound is no word. */
  method ConstructHashes(sink: seq<bool>, hashes: seq<nat>, exponent: nat, rate: nat) returns (out: seq<bool>)
    ensures out == sink + ConstructedHashes(hashes, exponent, rate)
  {
    hide CodeAll;
    out := sink;
    if rate * |hashes| < POW64 {
      out := EncodeAll(out, Ranges(hashes, rate * |hashes|), exponent);
    }
  }

  ghost function ConstructedHashes(hashes: seq<nat>, exponent: nat, rate: nat): seq<bool> {
    if rate * |hashes| < POW64 then CodeAll(Ranges(hashes, rate * |hashes|), exponent) else []
  }

  /** The numbers of a set of items, none if their bound is no word. */
  function HashedSet(items: seq<Item>, size: nat, rate: nat, hash: Item -> nat): seq<nat> {
    if rate * size < POW64 then Sort(Ranges(Hashes(items, hash), rate * size), Less) else []
  }

  method ConstructItems(sink: seq<bool>, items: seq<Item>, exponent: nat, rate: nat, hash: Item -> nat)
    returns (out: seq<bool>)
    ensures out == sink + CodeAll(HashedSet(items, |items|, rate, hash), exponent)
  {
    hide HashedSet, CodeAll;
    out := EncodeAll(sink, HashedSet(items, |items|, rate, hash), exponent);
  }

  ghost predicate IsHash(hash: Item -> nat) {
    forall item :: hash(item) < POW64
  }

  lemma {:induction false} HashedSetWords(items: seq<Item>, size: nat, rate: nat, hash: Item -> nat)
    requires IsHash(hash)
    ensures AreWords(HashedSet(items, size, rate, hash)) && SortedBy(HashedSet(items, size, rate, hash), Less)
  {
    if rate * size < POW64 {
      var ranges := Ranges(Hashes(items, hash), rate * size);
      SortNumbers(ranges);
      hide Sort, SortedBy;
      var sorted := Sort(ranges, Less);
      forall i | 0 <= i < |sorted|
        ensures sorted[i] < POW64
      {
        assert sorted[i] in multiset(ranges);
        var j :| 0 <= j < |ranges| && ranges[j] == sorted[i];
        RangeBound(hash(items[j]), rate * size);
      }
    }
  }

  // ---- Matching ----

  method MatchSingle(bits: seq<bool>, target: Item, size: nat, exponent: nat, rate: nat, hash: Item -> nat)
    returns (found: bool)
    ensures found == Matches(bits, target, size, exponent, rate, hash)
  {
    hide MatchFrom;
    var bound := (rate * size) % POW64;
    found := MatchRange(bits, ToRange(hash(target), bound), size, exponent);
  }

  ghost function Matches(bits: seq<bool>, target: Item, size: nat, exponent: nat, rate: nat, hash: Item -> nat): bool {
    MatchFrom(bits, 0, 0, size, ToRange(hash(target), (rate * size) % POW64), exponent)
  }

  /** A target matches a constructed set, whatever follows it, exactly when some item has its range
      value: members always match. */
  lemma {:induction false} MatchIffShared(items: seq<Item>, target: Item, exponent: nat, rate: nat, hash: Item -> nat,
                                          padding: seq<bool>)
    requires IsHash(hash) && rate * |items| < POW64
    ensures var bits := CodeAll(HashedSet(items, |items|, rate, hash), exponent) + padding;
      var bound := rate * |items|;
      Matches(bits, target, |items|, exponent, rate, hash) <==>
      exists item, range :: item in items && IsRange(hash(item), bound, range) && IsRange(hash(target), bound, range)
  {
    hide CodeAll, MatchFrom, ToRange, IsRange, Sort, SortedBy, Mapped, HashedSet;
    var bound := rate * |items|;
    var numbers := HashedSet(items, |items|, rate, hash);
    HashedSetWords(items, |items|, rate, hash);
    MatchRest(numbers, 0, padding, ToRange(hash(target), bound), exponent);
    NoCodes(exponent);
    assert numbers[..0] == [] && numbers[0..] == numbers;
    HashedSetMembers(items, |items|, rate, hash, ToRange(hash(target), bound));
    SharedRange(items, target, bound, hash);
  }

  lemma {:induction false} SharedRange(items: seq<Item>, target: Item, bound: nat, hash: Item -> nat)
    ensures (exists item :: item in items && ToRange(hash(item), bound) == ToRange(hash(target), bound)) <==>
            exists item, range :: item in items && IsRange(hash(item), bound, range) &&
              IsRange(hash(target), bound, range)
  {
    hide ToRange, IsRange;
    var range := ToRange(hash(target), bound);
    RangeIff(hash(target), bound, range);
    if item :| item in items && ToRange(hash(item), bound) == range {
      RangeIff(hash(item), bound, range);
    }
    if item, other :| item in items && IsRange(hash(item), bound, other) && IsRange(hash(target), bound, other) {
      RangeIff(hash(target), bound, other);
      RangeIff(hash(item), bound, other);
    }
  }

  /** The numbers of a set: in order, the range of each item's hash. */
  lemma {:induction false} HashedSetIs(items: seq<Item>, size: nat, rate: nat, hash: Item -> nat)
                                       returns (ranges: seq<nat>)
    requires rate * size < 0x1_0000_0000_0000_0000
    ensures |ranges| == |items| && forall i :: 0 <= i < |items| ==> IsRange(hash(items[i]), rate * size, ranges[i])
    ensures var coded := HashedSet(items, size, rate, hash);
      multiset(coded) == multiset(ranges) && forall i, j :: 0 <= i < j < |coded| ==> coded[i] <= coded[j]
  {
    hide ToRange, IsRange, Sort;
    var bound := rate * size;
    ranges := Ranges(Hashes(items, hash), bound);
    SortNumbers(ranges);
    forall i | 0 <= i < |items|
      ensures IsRange(hash(items[i]), bound, ranges[i])
    {
      RangeIff(hash(items[i]), bound, ranges[i]);
    }
    var coded := Sort(ranges, Less);
    forall i, j | 0 <= i < j < |coded|
      ensures coded[i] <= coded[j]
    {
      assert !Less(coded[j], coded[i]);
    }
  }

  lemma {:induction false} HashedSetMembers(items: seq<Item>, size: nat, rate: nat, hash: Item -> nat, range: nat)
    requires rate * size < POW64
    ensures |HashedSet(items, size, rate, hash)| == |items|
    ensures range in HashedSet(items, size, rate, hash) <==>
            exists item :: item in items && ToRange(hash(item), rate * size) == range
  {
    hide Sort, SortedBy, Mapped, ToRange;
    var ranges := Ranges(Hashes(items, hash), rate * size);
    SortNumbers(ranges);
    assert range in Sort(ranges, Less) <==> range in multiset(Sort(ranges, Less));
    assert range in ranges <==> range in multiset(ranges);
    RangeMembers(items, hash, rate * size, range);
  }

  lemma {:induction false} NoCodes(exponent: nat)
    ensures CodeAll([], exponent) == []
  {
  }

  lemma {:induction false} RangeMembers(items: seq<Item>, hash: Item -> nat, bound: nat, range: nat)
    ensures range in Ranges(Hashes(items, hash), bound) <==>
            exists item :: item in items && ToRange(hash(item), bound) == range
  {
    hide ToRange;
    var ranges := Ranges(Hashes(items, hash), bound);
    if range in ranges {
      var i :| 0 <= i < |ranges| && ranges[i] == range;
      assert items[i] in items && ToRange(hash(items[i]), bound) == range;
    }
    if item :| item in items && ToRange(hash(item), bound) == range {
      var i :| 0 <= i < |items| && items[i] == item;
      assert ranges[i] == range;
    }
  }

  // ---- Distinct items ----

  datatype Indexed = Indexed(hash: nat, index: nat)

  predicate HashLess(a: Indexed, b: Indexed) {
    a.hash < b.hash
  }

  function IndexAll(items: seq<Item>, hash: Item -> nat): (r: seq<Indexed>)
    ensures |r| == |items|
  {
    seq(|items|, i requires 0 <= i < |items| => Indexed(hash(items[i]), i))
  }

  /** Each entry is of an item, with its hash. */
  ghost predicate AreIndexed(sorted: seq<Indexed>, items: seq<Item>, hash: Item -> nat) {
    forall k :: 0 <= k < |sorted| ==> sorted[k].index < |items| && sorted[k].hash == hash(items[sorted[k].index])
  }

  ghost function ItemAt(sorted: seq<Indexed>, items: seq<Item>, k: nat): Item
    requires k < |sorted| && sorted[k].index < |items|
  {
    items[sorted[k].index]
  }

  lemma {:induction false} SortedIndexed(items: seq<Item>, hash: Item -> nat)
    ensures var sorted := Sort(IndexAll(items, hash), HashLess);
      && |sorted| == |items| && SortedBy(sorted, HashLess) && AreIndexed(sorted, items, hash)
      && (forall x :: x in sorted <==> x in IndexAll(items, hash))
  {
    var all := IndexAll(items, hash);
    assert StrictWeakOrder(HashLess);
    SortSorts(all, HashLess);
    hide Sort, SortedBy;
    var sorted := Sort(all, HashLess);
    forall x
      ensures x in sorted <==> x in all
    {
      assert x in sorted <==> x in multiset(sorted);
    }
    forall k | 0 <= k < |sorted|
      ensures sorted[k].index < |items| && sorted[k].hash == hash(items[sorted[k].index])
    {
      assert sorted[k] in sorted;
    }
  }

  /** Whether no entry from run to it has the item of the entry at it. */
  method NoneEqual(sorted: seq<Indexed>, items: seq<Item>, run: nat, it: nat) returns (none: bool)
    requires run <= it < |sorted| && forall k :: 0 <= k < |sorted| ==> sorted[k].index < |items|
    ensures none <==> forall k :: run <= k < it ==> ItemAt(sorted, items, k) != ItemAt(sorted, items, it)
  {
    var other := run;
    while other < it
      invariant run <= other <= it
      invariant forall k :: run <= k < other ==> ItemAt(sorted, items, k) != ItemAt(sorted, items, it)
    {
      if items[sorted[other].index] == items[sorted[it].index] {
        assert ItemAt(sorted, items, other) == ItemAt(sorted, items, it);
        return false;
      }
      other := other + 1;
    }
    return true;
  }

  /** The items kept are those of the entries so far, each once, with their hashes. */
  ghost predicate Keeps(kept: seq<Item>, out: seq<nat>, sorted: seq<Indexed>, items: seq<Item>, hash: Item -> nat,
                        it: nat)
    requires it <= |sorted| && forall k :: 0 <= k < |sorted| ==> sorted[k].index < |items|
  {
    && Distinct(kept) && out == Hashes(kept, hash) && SortedBy(out, Less)
    && (forall k :: 0 <= k < it ==> ItemAt(sorted, items, k) in kept)
    && (forall i :: 0 <= i < |kept| ==> exists k :: 0 <= k < it && ItemAt(sorted, items, k) == kept[i])
  }

  lemma {:induction false} KeepsNew(kept: seq<Item>, out: seq<nat>, sorted: seq<Indexed>, items: seq<Item>,
                                    hash: Item -> nat, it: nat)
    requires it < |sorted| && AreIndexed(sorted, items, hash) && SortedBy(sorted, HashLess)
    requires Keeps(kept, out, sorted, items, hash, it)
    requires forall k :: 0 <= k < it ==> ItemAt(sorted, items, k) != ItemAt(sorted, items, it)
    ensures Keeps(kept + [ItemAt(sorted, items, it)], out + [sorted[it].hash], sorted, items, hash, it + 1)
  {
    var item := ItemAt(sorted, items, it);
    var kept', out' := kept + [item], out + [sorted[it].hash];
    assert item !in kept;
    assert Distinct(kept');
    assert SortedBy(out', Less) by {
      forall i | 0 <= i < |out|
        ensures out[i] <= sorted[it].hash
      {
        var k :| 0 <= k < it && ItemAt(sorted, items, k) == kept[i];
        assert !HashLess(sorted[it], sorted[k]);
      }
    }
    forall i | 0 <= i < |kept'|
      ensures exists k :: 0 <= k < it + 1 && ItemAt(sorted, items, k) == kept'[i]
    {
      if i < |kept| {
        var k :| 0 <= k < it && ItemAt(sorted, items, k) == kept[i];
      } else {
        assert ItemAt(sorted, items, it) == kept'[i];
      }
    }
  }

  lemma {:induction false} KeepsOld(kept: seq<Item>, out: seq<nat>, sorted: seq<Indexed>, items: seq<Item>,
                                    hash: Item -> nat, it: nat, k: nat)
    requires k < it < |sorted| && AreIndexed(sorted, items, hash)
    requires Keeps(kept, out, sorted, items, hash, it)
    requires ItemAt(sorted, items, k) == ItemAt(sorted, items, it)
    ensures Keeps(kept, out, sorted, items, hash, it + 1)
  {
    hide Distinct, SortedBy, ItemAt;
    forall i | 0 <= i < |kept|
      ensures exists k :: 0 <= k < it + 1 && ItemAt(sorted, items, k) == kept[i]
    {
      var k :| 0 <= k < it && ItemAt(sorted, items, k) == kept[i];
    }
  }

  /** Entries before a run have other hashes than those in it. */
  ghost predicate IsRun(sorted: seq<Indexed>, run: nat, it: nat) {
    && run <= it <= |sorted|
    && (forall k :: run <= k < it ==> sorted[k].hash == sorted[run].hash)
    && (forall k :: 0 <= k < run ==> run < |sorted| && sorted[k].hash != sorted[run].hash)
  }

  lemma {:induction false} RunNext(sorted: seq<Indexed>, run: nat, it: nat, next: nat)
    requires it < |sorted| && IsRun(sorted, run, it) && SortedBy(sorted, HashLess)
    requires next == if sorted[it].hash != sorted[run].hash then it else run
    ensures IsRun(sorted, next, it + 1)
    ensures forall k :: 0 <= k < next ==> sorted[k].hash != sorted[it].hash
  {
    if next == it && run < it {
      forall k | 0 <= k < it
        ensures sorted[k].hash != sorted[it].hash
      {
        if k < run {
          assert !HashLess(sorted[run], sorted[k]) && !HashLess(sorted[it], sorted[run]);
        }
      }
    }
  }

  /** Items of other hashes are other items. */
  lemma {:induction false} NoneBefore(sorted: seq<Indexed>, items: seq<Item>, hash: Item -> nat, run: nat, it: nat)
    requires run <= it < |sorted| && AreIndexed(sorted, items, hash)
    requires forall k :: 0 <= k < run ==> sorted[k].hash != sorted[it].hash
    requires forall k :: run <= k < it ==> ItemAt(sorted, items, k) != ItemAt(sorted, items, it)
    ensures forall k :: 0 <= k < it ==> ItemAt(sorted, items, k) != ItemAt(sorted, items, it)
  {
  }

  ghost predicate IsSorted(sorted: seq<Indexed>, items: seq<Item>, hash: Item -> nat) {
    SortedBy(sorted, HashLess) && AreIndexed(sorted, items, hash)
  }

  lemma {:induction false} Indices(sorted: seq<Indexed>, items: seq<Item>, hash: Item -> nat)
    requires IsSorted(sorted, items, hash)
    ensures forall k :: 0 <= k < |sorted| ==> sorted[k].index < |items|
  {
  }

  /** Keeps the item of an entry unless one of its run is equal to it. */
  method KeepNext(sorted: seq<Indexed>, items: seq<Item>, hash: Item -> nat, it: nat, run: nat, out: seq<nat>,
                  ghost kept: seq<Item>) returns (run': nat, out': seq<nat>, ghost kept': seq<Item>)
    requires it < |sorted| && IsSorted(sorted, items, hash) && IsRun(sorted, run, it)
    requires forall k :: 0 <= k < |sorted| ==> sorted[k].index < |items|
    requires Keeps(kept, out, sorted, items, hash, it)
    ensures IsRun(sorted, run', it + 1) && Keeps(kept', out', sorted, items, hash, it + 1)
  {
    run' := if sorted[it].hash != sorted[run].hash then it else run;
    hide Keeps, IsRun, AreIndexed, ItemAt, SortedBy;
    RunNext(sorted, run, it, run');
    var none := NoneEqual(sorted, items, run', it);
    if none {
      NoneBefore(sorted, items, hash, run', it);
      KeepsNew(kept, out, sorted, items, hash, it);
      out' := out + [sorted[it].hash];
      kept' := kept + [ItemAt(sorted, items, it)];
    } else {
      ghost var k :| run' <= k < it && ItemAt(sorted, items, k) == ItemAt(sorted, items, it);
      KeepsOld(kept, out, sorted, items, hash, it, k);
      out', kept' := out, kept;
    }
  }

  /** In order, exactly one hash for each distinct item. */
  method HashDistinct(items: seq<Item>, hash: Item -> nat) returns (out: seq<nat>, ghost kept: seq<Item>)
    ensures Distinct(kept) && (forall item :: item in kept <==> item in items)
    ensures out == Hashes(kept, hash) && SortedBy(out, Less)
  {
    var sorted := Sort(IndexAll(items, hash), HashLess);
    out, kept := [], [];
    assert SortedBy(out, Less);
    SortedIndexed(items, hash);
    Indices(sorted, items, hash);
    hide Sort, SortedBy, IndexAll, Mapped;
    var run: nat, it: nat := 0, 0;
    while it < |sorted|
      invariant it <= |sorted| && IsRun(sorted, run, it) && Keeps(kept, out, sorted, items, hash, it)
    {
      hide Keeps, IsRun, IsSorted;
      run, out, kept := KeepNext(sorted, items, hash, it, run, out, kept);
      it := it + 1;
    }
    KeptAll(kept, out, sorted, items, hash);
  }

  lemma {:induction false} KeptAll(kept: seq<Item>, out: seq<nat>, sorted: seq<Indexed>, items: seq<Item>,
                                   hash: Item -> nat)
    requires AreIndexed(sorted, items, hash) && (forall x :: x in sorted <==> x in IndexAll(items, hash))
    requires Keeps(kept, out, sorted, items, hash, |sorted|)
    ensures forall item :: item in kept <==> item in items
  {
    hide Distinct, SortedBy;
    forall i | 0 <= i < |items|
      ensures items[i] in kept
    {
      var x := IndexAll(items, hash)[i];
      assert x in sorted;
      var k :| 0 <= k < |sorted| && sorted[k] == x;
      assert ItemAt(sorted, items, k) == items[i];
    }
  }

  /** Lists without repeats of the same items are permutations of each other. */
  lemma {:induction false} DistinctPermuted(a: seq<Item>, b: seq<Item>)
    requires Distinct(a) && Distinct(b) && forall item :: item in a <==> item in b
    ensures multiset(a) == multiset(b)
  {
    forall item
      ensures multiset(a)[item] == multiset(b)[item]
    {
      Multiplicity(a, item);
      Multiplicity(b, item);
    }
  }

  lemma {:induction false} Multiplicity(s: seq<Item>, item: Item)
    requires Distinct(s)
    ensures multiset(s)[item] == if item in s then 1 else 0
    decreases |s|
  {
    if s != [] {
      Front(s);
      Multiplicity(s[..|s| - 1], item);
      assert item in s <==> item in s[..|s| - 1] || item == s[|s| - 1];
    }
  }

  /** The codes of the hashes of distinct items are the codes of the items. `hashes` and `kept` are
      what `HashDistinct` promises. */
  lemma {:induction false} FormsAgree(items: seq<Item>, hashes: seq<nat>, kept: seq<Item>, exponent: nat, rate: nat,
                                      hash: Item -> nat)
    requires Distinct(kept) && (forall item :: item in kept <==> item in items)
    requires hashes == Hashes(kept, hash) && SortedBy(hashes, Less)
    requires Distinct(items)
    ensures ConstructedHashes(hashes, exponent, rate) == CodeAll(HashedSet(items, |items|, rate, hash), exponent)
  {
    hide Mapped, Sort, SortedBy, CodeAll, Distinct;
    DistinctPermuted(kept, items);
    SameLength(kept, items);
    MappedPermuted(kept, items, hash);
    var all := Hashes(items, hash);
    SortNumbers(all);
    SortedUnique(hashes, Sort(all, Less));
    FormsAgreeSorted(items, hashes, exponent, rate, hash);
  }

  lemma {:induction false} FormsAgreeSorted(items: seq<Item>, hashes: seq<nat>, exponent: nat, rate: nat,
                                            hash: Item -> nat)
    requires hashes == Sort(Hashes(items, hash), Less)
    ensures ConstructedHashes(hashes, exponent, rate) == CodeAll(HashedSet(items, |items|, rate, hash), exponent)
  {
    hide Mapped, Sort, SortedBy, CodeAll;
    SortNumbers(Hashes(items, hash));
    SortRanges(Hashes(items, hash), rate * |items|);
    NoCodes(exponent);
  }
}
