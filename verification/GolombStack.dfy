/** The search of a Golomb-coded set for any of several targets, and the targets that it can miss. */
module GolombStack {
  import opened Words
  import opened Sorting
  import opened Golomb

  // ---- The search ----

  datatype Walked = Found | Next(it: nat)

  /** Compares a number with sorted targets, from a value that a first step compares again. */
  function Walk(targets: seq<nat>, it: nat, value: nat, number: nat): (r: Walked)
    requires it <= |targets|
    ensures r.Next? ==> it <= r.it <= |targets|
    decreases |targets| - it
  {
    if it == |targets| then Next(it)
    else if value == number then Found
    else if value > number then Next(it)
    else Walk(targets, it + 1, targets[it], number)
  }

  /** Whether a search of numbers finds a target from a position. */
  function Search(targets: seq<nat>, it: nat, numbers: seq<nat>): bool
    requires it <= |targets|
    decreases |numbers|
  {
    it < |targets| && numbers != [] &&
    match Walk(targets, it, targets[it], numbers[0])
    case Found => true
    case Next(next) => Search(targets, next, numbers[1..])
  }

  /** The numbers coded from a position. */
  ghost function Numbers(bits: seq<bool>, at: nat, previous: nat, count: nat, exponent: nat): seq<nat>
    decreases count
  {
    if count == 0 then []
    else
      var (delta, next) := DecodeAt(bits, at, exponent);
      var number := (previous + delta) % POW64;
      [number] + Numbers(bits, next, number, count - 1, exponent)
  }

  /** The loops over a coded set. */
  method MatchStack(bits: seq<bool>, targets: seq<Item>, size: nat, exponent: nat, rate: nat, hash: Item -> nat)
    returns (found: bool)
    ensures found == Search(HashedSet(targets, size, rate, hash), 0, Numbers(bits, 0, 0, size, exponent))
  {
    hide DecodeAt, HashedSet, Walk, Search, Numbers;
    SearchNone(targets, size, rate, hash, Numbers(bits, 0, 0, size, exponent));
    if targets == [] {
      return false;
    }
    var ranges := HashedSet(targets, size, rate, hash);
    var number: nat, at: nat, index: nat, it: nat := 0, 0, 0, 0;
    while index < size && it < |ranges|
      invariant index <= size && it <= |ranges|
      invariant Search(ranges, 0, Numbers(bits, 0, 0, size, exponent)) ==
                Search(ranges, it, Numbers(bits, at, number, size - index, exponent))
    {
      SearchNext(ranges, it, bits, at, number, size - index, exponent);
      var delta, next := Decode(bits, at, exponent);
      number, at := (number + delta) % POW64, next;
      found, it := WalkRanges(ranges, it, number);
      if found {
        return;
      }
      index := index + 1;
    }
    SearchEnds(ranges, it, bits, at, number, size - index, exponent);
    return false;
  }

  lemma {:induction false} SearchNone(targets: seq<Item>, size: nat, rate: nat, hash: Item -> nat, numbers: seq<nat>)
    ensures targets == [] ==> !Search(HashedSet(targets, size, rate, hash), 0, numbers)
  {
  }

  lemma {:induction false} SearchEnds(ranges: seq<nat>, it: nat, bits: seq<bool>, at: nat, number: nat, left: nat,
                                      exponent: nat)
    requires it <= |ranges| && (left == 0 || it == |ranges|)
    ensures !Search(ranges, it, Numbers(bits, at, number, left, exponent))
  {
  }

  lemma {:induction false} SearchNext(ranges: seq<nat>, it: nat, bits: seq<bool>, at: nat, number: nat, left: nat,
                                      exponent: nat)
    requires it < |ranges| && left > 0
    ensures var (delta, next) := DecodeAt(bits, at, exponent);
      var after := (number + delta) % POW64;
      var walked := Walk(ranges, it, ranges[it], after);
      Search(ranges, it, Numbers(bits, at, number, left, exponent)) <==>
      walked.Found? || Search(ranges, walked.it, Numbers(bits, next, after, left - 1, exponent))
  {
    hide DecodeAt, Walk;
    var (delta, next) := DecodeAt(bits, at, exponent);
    var after := (number + delta) % POW64;
    assert Numbers(bits, at, number, left, exponent)[1..] == Numbers(bits, next, after, left - 1, exponent);
  }

  method WalkRanges(ranges: seq<nat>, start: nat, number: nat) returns (found: bool, it: nat)
    requires start < |ranges|
    ensures Walk(ranges, start, ranges[start], number) == if found then Found else Next(it)
    ensures it <= |ranges|
  {
    it := start;
    var value: nat := ranges[it];
    while it < |ranges|
      invariant it <= |ranges|
      invariant Walk(ranges, start, ranges[start], number) == Walk(ranges, it, value, number)
    {
      if value == number {
        return true, it;
      }
      if value > number {
        break;
      }
      value, it := ranges[it], it + 1;
    }
    return false, it;
  }

  /** The numbers coded are those that were encoded. */
  lemma {:induction false} NumbersCoded(values: seq<nat>, k: nat, padding: seq<bool>, exponent: nat)
    requires AreWords(values) && k <= |values|
    ensures Numbers(CodeAll(values, exponent) + padding, |CodeAll(values[..k], exponent)|, Last(values[..k]),
                    |values| - k, exponent) == values[k..]
    decreases |values| - k
  {
    hide DecodeAt, CodeAll;
    if k < |values| {
      DecodeNext(values, k, padding, exponent);
      NumbersCoded(values, k + 1, padding, exponent);
    }
  }

  // ---- What is found is shared ----

  ghost predicate Shared(targets: seq<nat>, numbers: seq<nat>, x: nat) {
    x in targets && x in numbers
  }

  lemma {:induction false} WalkFinds(targets: seq<nat>, it: nat, value: nat, number: nat)
    requires it <= |targets| && value in targets && Walk(targets, it, value, number).Found?
    ensures number in targets
    decreases |targets| - it
  {
    if it < |targets| && value < number {
      WalkFinds(targets, it + 1, targets[it], number);
    }
  }

  /** A search of any numbers finds only what is shared. */
  lemma {:induction false} SearchSound(targets: seq<nat>, it: nat, numbers: seq<nat>)
    requires it <= |targets| && Search(targets, it, numbers)
    ensures exists x :: Shared(targets, numbers, x)
    decreases |numbers|
  {
    hide Walk;
    var walked := Walk(targets, it, targets[it], numbers[0]);
    if walked.Found? {
      WalkFinds(targets, it, targets[it], numbers[0]);
      assert Shared(targets, numbers, numbers[0]);
    } else {
      SearchSound(targets, walked.it, numbers[1..]);
      var x :| Shared(targets, numbers[1..], x);
      assert Shared(targets, numbers, x);
    }
  }

  // ---- What is shared is found ----

  /** Whether no target is passed by without being compared with its own number. The last one is
      only compared as the copy of the one before it, and any other that stopped a walk that had moved
      is only compared as the copy that follows. */
  predicate Covered(targets: seq<nat>, size: nat) {
    var n := |targets|;
    n < 2 || size == 0 ||
    (targets[n - 2] == targets[n - 1] && (size == 1 || forall k :: 1 <= k < n - 1 ==> CoveredAt(targets, k)))
  }

  predicate CoveredAt(targets: seq<nat>, k: nat)
    requires 1 <= k < |targets| - 1
  {
    targets[k] <= targets[k - 1] + 1 || targets[k + 1] == targets[k]
  }

  /** A walk passes by the targets below the number. */
  lemma {:induction false} Passes(targets: seq<nat>, it: nat, to: nat, number: nat)
    requires 1 <= it <= to <= |targets| && forall i :: it - 1 <= i < to - 1 ==> targets[i] < number
    ensures Walk(targets, it, targets[it - 1], number) == Walk(targets, to, targets[to - 1], number)
    decreases |targets| - it
  {
    if it < to {
      assert targets[it - 1] < number;
      Passes(targets, it + 1, to, number);
    }
  }

  /** Where a walk over sorted targets stops when the first that is not below the number is given. */
  lemma {:induction false} Stops(targets: seq<nat>, it: nat, at: nat, number: nat)
    requires it <= at < |targets| && (forall i :: it <= i < at ==> targets[i] < number) && number <= targets[at]
    ensures Walk(targets, it, targets[it], number) ==
            if at == it then (if targets[at] == number then Found else Next(at))
            else if at == |targets| - 1 then Next(|targets|)
            else if targets[at] == number then Found else Next(at + 1)
  {
    if it < at {
      Passes(targets, it + 1, at + 1, number);
    }
  }

  /** A walk over sorted targets for a lower number than a target ahead does not go past it. */
  lemma {:induction false} FirstAtLeast(targets: seq<nat>, it: nat, at: nat, number: nat) returns (first: nat)
    requires it <= at < |targets| && number <= targets[at]
    ensures it <= first <= at && number <= targets[first] && forall i :: it <= i < first ==> targets[i] < number
    decreases at - it
  {
    first := it;
    if targets[it] < number {
      first := FirstAtLeast(targets, it + 1, at, number);
    }
  }

  /** A target ahead of the position can still be found: it is not the last, or it is next. */
  ghost predicate Ahead(targets: seq<nat>, it: nat, at: nat, x: nat) {
    it <= at < |targets| && targets[at] == x && (at < |targets| - 1 || it == at)
  }

  /** Each number moves the search to where the target is still ahead, unless it finds one. */
  lemma {:induction false} StaysAhead(targets: seq<nat>, it: nat, at: nat, x: nat, number: nat)
    requires SortedBy(targets, Less) && Ahead(targets, it, at, x) && number <= x
    requires number < x ==> forall k :: 1 <= k < |targets| - 1 ==> CoveredAt(targets, k)
    ensures var walked := Walk(targets, it, targets[it], number);
      walked.Found? || (number < x && exists at' :: Ahead(targets, walked.it, at', x))
  {
    hide Walk;
    var first := FirstAtLeast(targets, it, at, number);
    Stops(targets, it, first, number);
    assert first < at ==> !Less(targets[at], targets[first]);
    if targets[first] != number {
      if first == it {
        assert Ahead(targets, it, at, x);
      } else if first == at {
        assert CoveredAt(targets, first) && targets[first - 1] < number;
        assert Ahead(targets, first + 1, first + 1, x);
      } else {
        assert Ahead(targets, first + 1, at, x);
      }
    }
  }

  lemma {:induction false} SearchFinds(targets: seq<nat>, it: nat, at: nat, numbers: seq<nat>, x: nat)
    requires SortedBy(targets, Less) && SortedBy(numbers, Less) && Ahead(targets, it, at, x) && x in numbers
    requires |numbers| > 1 ==> forall k :: 1 <= k < |targets| - 1 ==> CoveredAt(targets, k)
    ensures Search(targets, it, numbers)
    decreases |numbers|
  {
    hide Walk, CoveredAt;
    var number := numbers[0];
    var i :| 0 <= i < |numbers| && numbers[i] == x;
    assert i > 0 ==> !Less(numbers[i], numbers[0]);
    StaysAhead(targets, it, at, x, number);
    var walked := Walk(targets, it, targets[it], number);
    if walked.Next? {
      var next :| Ahead(targets, walked.it, next, x);
      assert numbers[1..][i - 1] == x;
      SearchFinds(targets, walked.it, next, numbers[1..], x);
    }
  }

  /** Every coded set of that size that shares a number with covered targets is matched. */
  lemma {:induction false} CoveredFinds(targets: seq<nat>, numbers: seq<nat>, x: nat)
    requires SortedBy(targets, Less) && SortedBy(numbers, Less) && Covered(targets, |numbers|)
    requires Shared(targets, numbers, x)
    ensures Search(targets, 0, numbers)
  {
    var at :| 0 <= at < |targets| && targets[at] == x;
    if 0 < at == |targets| - 1 {
      at := at - 1;
    }
    SearchFinds(targets, 0, at, numbers, x);
  }

  // ---- What is missed ----

  /** Numbers below the target at the position find nothing. */
  lemma {:induction false} SearchStays(targets: seq<nat>, it: nat, numbers: seq<nat>)
    requires it < |targets| && forall i :: 0 <= i < |numbers| ==> numbers[i] < targets[it]
    ensures !Search(targets, it, numbers)
    decreases |numbers|
  {
    if numbers != [] {
      SearchStays(targets, it, numbers[1..]);
    }
  }

  /** So many of one number and then another. */
  function Repeated(count: nat, x: nat, y: nat): (r: seq<nat>)
    ensures |r| == count + 1 && r[count] == y && forall i :: 0 <= i < count ==> r[i] == x
  {
    seq(count, _ => x) + [y]
  }

  /** The last target, if above the one before it, is missed. */
  lemma {:induction false} LastMissed(targets: seq<nat>, count: nat)
    requires SortedBy(targets, Less) && |targets| >= 2
    requires targets[|targets| - 2] < targets[|targets| - 1]
    ensures !Search(targets, 0, Repeated(count, targets[|targets| - 1], targets[|targets| - 1]))
  {
    hide Walk;
    var n := |targets|;
    forall i | 0 <= i < n - 1
      ensures targets[i] < targets[n - 1]
    {
      assert i < n - 2 ==> !Less(targets[n - 2], targets[i]);
    }
    Stops(targets, 0, n - 1, targets[n - 1]);
  }

  /** A target that leaves a gap below it, and no copy after it, is missed after a number in the gap. */
  lemma {:induction false} GapMissed(targets: seq<nat>, k: nat, count: nat)
    requires SortedBy(targets, Less) && 1 <= k < |targets| - 1 && !CoveredAt(targets, k) && count > 0
    ensures !Search(targets, 0, Repeated(count, targets[k] - 1, targets[k]))
  {
    hide Walk;
    var numbers := Repeated(count, targets[k] - 1, targets[k]);
    forall i | 0 <= i < k
      ensures targets[i] < targets[k] - 1
    {
      assert i < k - 1 ==> !Less(targets[k - 1], targets[i]);
    }
    assert !Less(targets[k], targets[k - 1]) && !Less(targets[k + 1], targets[k]);
    Stops(targets, 0, k, targets[k] - 1);
    SearchStays(targets, k + 1, numbers[1..]);
  }

  /** No set of that size that shares a number with the targets is missed. */
  ghost predicate Complete(targets: seq<nat>, size: nat) {
    forall numbers: seq<nat> ::
      |numbers| == size && AreWords(numbers) && SortedBy(numbers, Less) && (exists x :: Shared(targets, numbers, x)) ==>
      Search(targets, 0, numbers)
  }

  /** The search of all sets of a size is complete if and only if the targets are covered. */
  lemma {:induction false} CompleteIffCovered(targets: seq<nat>, size: nat)
    requires AreWords(targets) && SortedBy(targets, Less)
    ensures Complete(targets, size) <==> Covered(targets, size)
  {
    hide Search, CoveredAt;
    if Covered(targets, size) {
      forall numbers: seq<nat> | |numbers| == size && AreWords(numbers) && SortedBy(numbers, Less) &&
                                 exists x :: Shared(targets, numbers, x)
        ensures Search(targets, 0, numbers)
      {
        var x :| Shared(targets, numbers, x);
        CoveredFinds(targets, numbers, x);
      }
    } else {
      var numbers := MissedNumbers(targets, size);
      assert !Complete(targets, size);
    }
  }

  /** Numbers that share one with targets that are not covered, and are missed. */
  lemma {:induction false} MissedNumbers(targets: seq<nat>, size: nat) returns (numbers: seq<nat>)
    requires AreWords(targets) && SortedBy(targets, Less) && !Covered(targets, size)
    ensures |numbers| == size && AreWords(numbers) && SortedBy(numbers, Less)
    ensures (exists x :: Shared(targets, numbers, x)) && !Search(targets, 0, numbers)
  {
    hide Search;
    var n := |targets|;
    if targets[n - 2] != targets[n - 1] {
      var x := targets[n - 1];
      assert !Less(x, targets[n - 2]);
      numbers := Repeated(size - 1, x, x);
      LastMissed(targets, size - 1);
      assert numbers[size - 1] == x && Shared(targets, numbers, x);
    } else {
      var k :| 1 <= k < n - 1 && !CoveredAt(targets, k);
      var x := targets[k];
      assert !Less(x, targets[k - 1]);
      numbers := Repeated(size - 1, x - 1, x);
      GapMissed(targets, k, size - 1);
      assert numbers[size - 1] == x && Shared(targets, numbers, x);
    }
  }

  /** Of two targets with different ranges the higher is never found. */
  lemma {:induction false} HigherMissed(low: nat, high: nat)
    requires low < high
    ensures !Search([low, high], 0, [high]) && Shared([low, high], [high], high)
  {
    LastMissed([low, high], 0);
    assert Repeated(0, high, high) == [high];
  }

  // ---- Sets of items ----

  /** Whether a target has the range of an item. */
  ghost predicate SharesRange(items: seq<Item>, targets: seq<Item>, bound: nat, hash: Item -> nat) {
    exists item, target :: item in items && target in targets &&
      ToRange(hash(item), bound) == ToRange(hash(target), bound)
  }

  lemma {:induction false} RangesShared(items: seq<Item>, targets: seq<Item>, size: nat, rate: nat, hash: Item -> nat)
    requires rate * size < POW64
    ensures (exists x :: Shared(HashedSet(targets, size, rate, hash), HashedSet(items, size, rate, hash), x)) <==>
            SharesRange(items, targets, rate * size, hash)
  {
    hide HashedSet, ToRange;
    var ranges, coded := HashedSet(targets, size, rate, hash), HashedSet(items, size, rate, hash);
    if x :| Shared(ranges, coded, x) {
      HashedSetMembers(items, size, rate, hash, x);
      HashedSetMembers(targets, size, rate, hash, x);
    }
    if SharesRange(items, targets, rate * size, hash) {
      var item, target :| item in items && target in targets &&
        ToRange(hash(item), rate * size) == ToRange(hash(target), rate * size);
      var x := ToRange(hash(item), rate * size);
      HashedSetMembers(items, size, rate, hash, x);
      HashedSetMembers(targets, size, rate, hash, x);
      assert Shared(ranges, coded, x);
    }
  }

  /** Targets that match the set built of items share a range with one, and those that do match it
      whenever the ranges of the targets are covered. */
  lemma {:induction false} StackMatches(items: seq<Item>, targets: seq<Item>, exponent: nat, rate: nat,
                                        hash: Item -> nat, padding: seq<bool>)
    requires IsHash(hash) && rate * |items| < POW64
    ensures var size, ranges := |items|, HashedSet(targets, |items|, rate, hash);
      var bits := CodeAll(HashedSet(items, size, rate, hash), exponent) + padding;
      var found := Search(ranges, 0, Numbers(bits, 0, 0, size, exponent));
      && (found ==> SharesRange(items, targets, rate * size, hash))
      && (Covered(ranges, size) ==> (found <==> SharesRange(items, targets, rate * size, hash)))
  {
    hide CodeAll, Search, Numbers, HashedSet, SortedBy, Covered, SharesRange;
    var size, coded := |items|, HashedSet(items, |items|, rate, hash);
    var ranges := HashedSet(targets, size, rate, hash);
    HashedSetWords(items, size, rate, hash);
    HashedSetWords(targets, size, rate, hash);
    HashedSetMembers(items, size, rate, hash, 0);
    NumbersCoded(coded, 0, padding, exponent);
    NoCodes(exponent);
    assert coded[..0] == [] && coded[0..] == coded;
    RangesShared(items, targets, size, rate, hash);
    if Search(ranges, 0, coded) {
      SearchSound(ranges, 0, coded);
    }
    if Covered(ranges, size) && SharesRange(items, targets, rate * size, hash) {
      var x :| Shared(ranges, coded, x);
      CoveredFinds(ranges, coded, x);
    }
  }

  /** A filter of one item is not matched by that item and another of a lower range. */
  lemma {:induction false} ItemMissed(low: Item, high: Item, exponent: nat, rate: nat, hash: Item -> nat,
                                      padding: seq<bool>)
    requires IsHash(hash) && rate < POW64 && ToRange(hash(low), rate) < ToRange(hash(high), rate)
    ensures var bits := CodeAll(HashedSet([high], 1, rate, hash), exponent) + padding;
      !Search(HashedSet([low, high], 1, rate, hash), 0, Numbers(bits, 0, 0, 1, exponent))
  {
    var a, b := ToRange(hash(low), rate), ToRange(hash(high), rate);
    SortedPair(low, high, rate, hash);
    HashedSetWords([high], 1, rate, hash);
    NumbersCoded([b], 0, padding, exponent);
    NoCodes(exponent);
    assert [b][..0] == [] && [b][0..] == [b];
    hide Search, Numbers, CodeAll, HashedSet;
    HigherMissed(a, b);
  }

  lemma {:induction false} SortedPair(low: Item, high: Item, rate: nat, hash: Item -> nat)
    requires rate < POW64 && ToRange(hash(low), rate) < ToRange(hash(high), rate)
    ensures HashedSet([low, high], 1, rate, hash) == [ToRange(hash(low), rate), ToRange(hash(high), rate)]
    ensures HashedSet([high], 1, rate, hash) == [ToRange(hash(high), rate)]
  {
    hide ToRange;
    var a, b := ToRange(hash(low), rate), ToRange(hash(high), rate);
    assert Ranges(Hashes([low, high], hash), rate) == [a, b] && Ranges(Hashes([high], hash), rate) == [b];
    SortedUnique(Sort([a, b], Less), [a, b]) by {
      SortNumbers([a, b]);
    }
    SortedUnique(Sort([b], Less), [b]) by {
      SortNumbers([b]);
    }
  }
}
