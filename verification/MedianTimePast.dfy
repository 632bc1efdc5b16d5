/** Median time past: the middle of the sorted window of preceding timestamps. */
module MedianTimePast {
  import opened ChainState
  import opened Sorting

  function SortCopy(s: seq<nat>): seq<nat> {
    Sort(s, Less)
  }

  /** The consensus median: of an even count, the upper of the two in the middle. */
  function Median(times: seq<nat>): nat {
    var sorted := SortCopy(times);
    if sorted == [] then 0 else sorted[|sorted| / 2]
  }

  /** The number of values below a bound. */
  ghost function CountBelow(s: seq<nat>, bound: nat): (n: nat)
    ensures n <= |s|
  {
    if s == [] then 0 else CountBelow(s[..|s| - 1], bound) + (if s[|s| - 1] < bound then 1 else 0)
  }

  lemma {:induction false} CountAppend(a: seq<nat>, b: seq<nat>, bound: nat)
    ensures CountBelow(a + b, bound) == CountBelow(a, bound) + CountBelow(b, bound)
    decreases |b|
  {
    if b == [] {
      assert a + b == a;
    } else {
      CountAppend(a, b[..|b| - 1], bound);
      assert (a + b)[..|a + b| - 1] == a + b[..|b| - 1];
    }
  }

  lemma {:induction false} CountInsert(s: seq<nat>, x: nat, bound: nat)
    ensures CountBelow(Insert(s, x, Less), bound) == CountBelow(s, bound) + (if x < bound then 1 else 0)
    decreases |s|
  {
    if s != [] && x < s[|s| - 1] {
      CountInsert(s[..|s| - 1], x, bound);
    }
  }

  lemma {:induction false} CountSorted(s: seq<nat>, bound: nat)
    ensures CountBelow(SortCopy(s), bound) == CountBelow(s, bound)
    decreases |s|
  {
    if s != [] {
      CountSorted(s[..|s| - 1], bound);
      CountInsert(SortCopy(s[..|s| - 1]), s[|s| - 1], bound);
    }
  }

  /** In sorted order the value at an index is below a bound when more values than the index are. */
  lemma {:induction false} Rank(s: seq<nat>, bound: nat, k: nat)
    requires SortedBy(s, Less) && k < |s|
    ensures s[k] < bound <==> CountBelow(s, bound) > k
    decreases |s|
  {
    var front := s[..|s| - 1];
    if k < |s| - 1 {
      Rank(front, bound, k);
    } else if front != [] {
      Rank(front, bound, |front| - 1);
    }
  }

  /** The median is below a bound exactly when more than half of the values, rounded down, are:
      no reference is made to order. */
  lemma {:induction false} MedianRank(times: seq<nat>, bound: nat)
    requires times != []
    ensures Median(times) < bound <==> CountBelow(times, bound) > |times| / 2
    ensures Median(times) in times
  {
    SortNumbers(times);
    CountSorted(times, bound);
    var sorted := SortCopy(times);
    Rank(sorted, bound, |sorted| / 2);
    assert sorted[|sorted| / 2] in multiset(sorted);
  }

  /** Of no times it is zero. */
  lemma {:induction false} MedianNone()
    ensures Median([]) == 0
  {
  }

  /** Pushing a timestamp not below the median does not lower the median. */
  lemma {:induction false} PushKeepsMedian(times: seq<nat>, time: nat, count: nat)
    requires time >= Median(times) && count > 0
    ensures Median(Push(times, time, count)) >= Median(times)
  {
    if times != [] {
      var bound := Median(times);
      MedianRank(times, bound);
      CountAppend(times, [time], bound);
      assert CountBelow([time], bound) == 0;
      var pushed := times + [time];
      MedianRank(pushed, bound);
      if |pushed| > count {
        CountAppend(pushed[..1], pushed[1..], bound);
        assert pushed == pushed[..1] + pushed[1..];
        MedianRank(pushed[1..], bound);
      }
    }
  }

  /** Whether every header of a promotion run, the start included, is later than its own median. */
  ghost predicate Timely(start: Data, headers: seq<Header>, c: Settings, signal: nat)
    requires c.interval > 0
  {
    forall i :: 0 <= i <= |headers| ==> TimelyState(Run(start, headers[..i], c, signal))
  }

  predicate TimelyState(d: Data) {
    d.timestampSelf > Median(d.timestamps)
  }

  /** Along a run in which each timestamp exceeds the median time past of its own state, median
      time past never decreases. */
  lemma {:induction false} MedianNeverDecreases(start: Data, headers: seq<Header>, c: Settings, signal: nat, i: nat,
                                                j: nat)
    requires c.interval > 0 && i <= j <= |headers| && Timely(start, headers, c, signal)
    ensures Median(Run(start, headers[..i], c, signal).timestamps) <=
            Median(Run(start, headers[..j], c, signal).timestamps)
    decreases j
  {
    hide Median, CacheHashes, Push;
    if i < j {
      MedianNeverDecreases(start, headers, c, signal, i, j - 1);
      var d := Run(start, headers[..j - 1], c, signal);
      assert TimelyState(d);
      assert headers[..j][..j - 1] == headers[..j - 1];
      PushKeepsMedian(d.timestamps, d.timestampSelf, TimestampCount(d.height + 1));
    }
  }
}
