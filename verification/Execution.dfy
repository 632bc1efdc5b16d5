/** Parallel algorithms over a range: its partition into tasks, reduction and sorting. */
module Execution {
  import opened Words
  import opened Sorting

  // ---- Partition ----

  /** Tasks for a count of elements, at most one for each worker, none below the floor. */
  function Chunks(count: nat, floor: nat, workers: nat): (tasks: nat)
    requires floor > 0
    ensures tasks >= 1
  {
    var tasks := Min(count / floor, workers);
    if tasks < 1 then 1 else tasks
  }

  function Size(edges: seq<nat>, i: nat): int
    requires i + 1 < |edges|
  {
    edges[i + 1] as int - edges[i] as int
  }

  ghost predicate AreEdges(edges: seq<nat>, count: nat) {
    && |edges| >= 2 && edges[0] == 0 && edges[|edges| - 1] == count
    && forall i :: 0 <= i < |edges| - 1 ==> Size(edges, i) >= 0
  }

  /** The sizes of tasks differ by at most one, and none is empty unless all is. */
  ghost predicate AreBalanced(edges: seq<nat>, count: nat)
    requires |edges| >= 2
  {
    && (forall i, j :: 0 <= i < |edges| - 1 && 0 <= j < |edges| - 1 ==> Size(edges, i) <= Size(edges, j) + 1)
    && (forall i :: 0 <= i < |edges| - 1 && count > 0 ==> Size(edges, i) > 0)
  }

  ghost function EdgeAt(i: nat, width: nat, extra: nat): nat {
    i * width + Min(i, extra)
  }

  lemma {:induction false} EdgeNext(i: nat, width: nat, extra: nat)
    ensures EdgeAt(i + 1, width, extra) == EdgeAt(i, width, extra) + width + (if i < extra then 1 else 0)
    ensures EdgeAt(0, width, extra) == 0
  {
    assert (i + 1) * width == i * width + width;
  }

  lemma {:induction false} ChunksFit(count: nat, floor: nat, workers: nat)
    requires floor > 0 && count > 0
    ensures Chunks(count, floor, workers) <= count
  {
    MulMonotone(count / floor, 1, floor);
    assert count == floor * (count / floor) + count % floor;
    assert floor * (count / floor) == (count / floor) * floor;
  }

  /** The width of tasks, and how many are wider by one. */
  lemma {:induction false} Widths(count: nat, tasks: nat)
    requires tasks > 0 && (count > 0 ==> tasks <= count)
    ensures var width, extra := count / tasks, count % tasks;
      width >= 0 && 0 <= extra < tasks && EdgeAt(tasks, width, extra) == count && (count > 0 ==> width > 0)
  {
    var width, extra := count / tasks, count % tasks;
    assert count == tasks * width + extra;
    if width == 0 {
      assert tasks * width == 0;
    }
  }

  method Bounds(count: nat, floor: nat, workers: nat) returns (edges: seq<nat>)
    requires floor > 0
    ensures |edges| == Chunks(count, floor, workers) + 1
    ensures AreEdges(edges, count) && AreBalanced(edges, count)
  {
    hide EdgeAt, Chunks;
    var tasks := Chunks(count, floor, workers);
    if count > 0 {
      ChunksFit(count, floor, workers);
    }
    Widths(count, tasks);
    var width: nat, extra: nat := count / tasks, count % tasks;
    edges := [0];
    var index: nat := 0;
    EdgeNext(0, width, extra);
    while index < tasks
      invariant index <= tasks && |edges| == index + 1 && edges[0] == 0
      invariant edges[index] == EdgeAt(index, width, extra)
      invariant forall i :: 0 <= i < index ==> width <= Size(edges, i) <= width + 1
    {
      EdgeNext(index, width, extra);
      var next := edges[index] + (width + (if index < extra then 1 else 0));
      SizesKept(edges, next, width);
      edges := edges + [next];
      index := index + 1;
    }
  }

  lemma {:induction false} SizesKept(edges: seq<nat>, next: nat, width: nat)
    requires |edges| >= 1 && width <= next - edges[|edges| - 1] <= width + 1
    requires forall i :: 0 <= i < |edges| - 1 ==> width <= Size(edges, i) <= width + 1
    ensures forall i :: 0 <= i < |edges| ==> width <= Size(edges + [next], i) <= width + 1
  {
    forall i | 0 <= i < |edges|
      ensures width <= Size(edges + [next], i) <= width + 1
    {
      if i < |edges| - 1 {
        assert Size(edges + [next], i) == Size(edges, i);
      }
    }
  }

  // ---- Reduction ----

  ghost function Fold<T>(op: (T, T) -> T, init: T, s: seq<T>): T {
    if s == [] then init else op(Fold(op, init, s[..|s| - 1]), s[|s| - 1])
  }

  ghost predicate Associative<T(!new)>(op: (T, T) -> T) {
    forall a, b, c :: op(op(a, b), c) == op(a, op(b, c))
  }

  /** The reduction of a chunk that is not empty, from its own first element. */
  ghost function Partial<T>(op: (T, T) -> T, s: seq<T>): T
    requires s != []
  {
    Fold(op, s[0], s[1..])
  }

  lemma {:induction false} FoldChunk<T(!new)>(op: (T, T) -> T, init: T, a: seq<T>, b: seq<T>)
    requires Associative(op) && b != []
    ensures Fold(op, init, a + b) == op(Fold(op, init, a), Partial(op, b))
    decreases |b|
  {
    var front, last := b[..|b| - 1], b[|b| - 1];
    assert (a + b)[..|a + b| - 1] == a + front;
    if front == [] {
      assert a + front == a;
    } else {
      FoldChunk(op, init, a, front);
      assert b[1..][..|b[1..]| - 1] == front[1..];
      assert b[1..][|b[1..]| - 1] == last;
    }
  }

  /** Chunks that follow each other, and are not empty. */
  ghost predicate AreChunks(edges: seq<nat>, count: nat, size: nat)
    requires count < |edges|
  {
    edges[0] == 0 && edges[count] <= size && forall i :: 0 <= i < count ==> Size(edges, i) > 0
  }

  lemma {:induction false} ChunksBefore(edges: seq<nat>, count: nat, size: nat)
    requires 0 < count < |edges| && AreChunks(edges, count, size)
    ensures edges[count - 1] < edges[count] && AreChunks(edges, count - 1, size)
  {
    assert Size(edges, count - 1) > 0;
  }

  ghost function Partials<T>(op: (T, T) -> T, s: seq<T>, edges: seq<nat>, count: nat): (r: seq<T>)
    requires count < |edges| && AreChunks(edges, count, |s|)
    ensures |r| == count
  {
    if count == 0 then []
    else
      ChunksBefore(edges, count, |s|);
      Partials(op, s, edges, count - 1) + [Partial(op, s[edges[count - 1]..edges[count]])]
  }

  /** The reduction of partial results is the reduction of the range, if the operation associates. */
  lemma {:induction false} ReducePartials<T(!new)>(op: (T, T) -> T, init: T, s: seq<T>, edges: seq<nat>, count: nat)
    requires Associative(op) && count < |edges| && AreChunks(edges, count, |s|)
    ensures Fold(op, init, Partials(op, s, edges, count)) == Fold(op, init, s[..edges[count]])
    decreases count
  {
    if count > 0 {
      ChunksBefore(edges, count, |s|);
      ReducePartials(op, init, s, edges, count - 1);
      hide AreChunks;
      var chunk := s[edges[count - 1]..edges[count]];
      assert s[..edges[count]] == s[..edges[count - 1]] + chunk;
      FoldChunk(op, init, s[..edges[count - 1]], chunk);
      var partials := Partials(op, s, edges, count);
      assert partials[..count - 1] == Partials(op, s, edges, count - 1);
    }
  }

  method FoldRange<T>(op: (T, T) -> T, init: T, s: seq<T>) returns (r: T)
    ensures r == Fold(op, init, s)
  {
    r := init;
    var i: nat := 0;
    while i < |s|
      invariant i <= |s| && r == Fold(op, init, s[..i])
    {
      assert s[..i + 1][..i] == s[..i];
      r, i := op(r, s[i]), i + 1;
    }
    assert s[..i] == s;
  }

  lemma {:induction false} EdgesAreChunks(edges: seq<nat>, count: nat)
    requires AreEdges(edges, count) && AreBalanced(edges, count) && count > 0
    ensures AreChunks(edges, |edges| - 1, count)
  {
  }

  lemma {:induction false} ChunksUpTo(edges: seq<nat>, count: nat, to: nat, size: nat)
    requires to <= count < |edges| && AreChunks(edges, count, size)
    ensures AreChunks(edges, to, size)
    decreases count - to
  {
    if to < count {
      ChunksBefore(edges, count, size);
      ChunksUpTo(edges, count - 1, to, size);
    }
  }

  /** Reduces each chunk from its own first element, and then the partial results. */
  method ParallelReduce<T(!new)>(s: seq<T>, parallel: bool, floor: nat, workers: nat, init: T, op: (T, T) -> T)
    returns (r: T)
    requires floor > 0 && Associative(op)
    ensures r == Fold(op, init, s)
  {
    hide Associative, AreChunks;
    if !parallel || Chunks(|s|, floor, workers) < 2 {
      r := FoldRange(op, init, s);
      return;
    }
    var edges := Bounds(|s|, floor, workers);
    SomeChunks(|s|, floor, workers);
    EdgesAreChunks(edges, |s|);
    var partials: seq<T> := [];
    var index: nat := 0;
    ghost var tasks := |edges| - 1;
    ChunksUpTo(edges, tasks, 0, |s|);
    while index < |edges| - 1
      invariant index <= tasks && AreChunks(edges, index, |s|) && partials == Partials(op, s, edges, index)
    {
      ChunksUpTo(edges, tasks, index + 1, |s|);
      ChunksBefore(edges, index + 1, |s|);
      InRange(edges, index + 1, |s|);
      var chunk := s[edges[index]..edges[index + 1]];
      var partial := FoldRange(op, chunk[0], chunk[1..]);
      partials, index := partials + [partial], index + 1;
    }
    r := FoldRange(op, init, partials);
    ReducePartials(op, init, s, edges, tasks);
    assert s[..edges[tasks]] == s;
  }

  lemma {:induction false} InRange(edges: seq<nat>, count: nat, size: nat)
    requires count < |edges| && AreChunks(edges, count, size)
    ensures edges[count] <= size
  {
  }

  lemma {:induction false} SomeChunks(count: nat, floor: nat, workers: nat)
    requires floor > 0 && Chunks(count, floor, workers) >= 2
    ensures count > 0
  {
    if count == 0 {
      DivideUnique(0, floor, 0, 0);
    }
  }

  // ---- Transformation ----

  /** Each chunk is transformed into its own place of the output. */
  method ParallelTransform<T(!new), U(!new)>(s: seq<T>, out: array<U>, parallel: bool, floor: nat, workers: nat,
                                             op: T -> U)
    requires floor > 0 && out.Length == |s|
    modifies out
    ensures forall i :: 0 <= i < |s| ==> out[i] == op(s[i])
  {
    if !parallel || Chunks(|s|, floor, workers) < 2 {
      TransformRange(s, out, 0, |s|, op);
      return;
    }
    var edges := Bounds(|s|, floor, workers);
    var index: nat := 0;
    while index < |edges| - 1
      invariant index <= |edges| - 1 && edges[index] <= |s|
      invariant forall i :: 0 <= i < edges[index] ==> out[i] == op(s[i])
    {
      hide AreEdges;
      EdgesOrdered(edges, |s|, index, index + 1);
      TransformRange(s, out, edges[index], edges[index + 1], op);
      index := index + 1;
    }
  }

  method TransformRange<T, U>(s: seq<T>, out: array<U>, from: nat, to: nat, op: T -> U)
    requires from <= to <= |s| == out.Length
    modifies out
    ensures forall i :: from <= i < to ==> out[i] == op(s[i])
    ensures forall i :: 0 <= i < from || to <= i < |s| ==> out[i] == old(out[i])
  {
    var i: nat := from;
    while i < to
      invariant from <= i <= to
      invariant forall k :: from <= k < i ==> out[k] == op(s[k])
      invariant forall k :: 0 <= k < from || i <= k < |s| ==> out[k] == old(out[k])
    {
      out[i] := op(s[i]);
      i := i + 1;
    }
  }

  // ---- Merging ----

  function Merge<T>(a: seq<T>, b: seq<T>, less: (T, T) -> bool): seq<T>
    decreases |a| + |b|
  {
    if a == [] then b
    else if b == [] then a
    else if less(b[|b| - 1], a[|a| - 1]) then Merge(a[..|a| - 1], b, less) + [a[|a| - 1]]
    else Merge(a, b[..|b| - 1], less) + [b[|b| - 1]]
  }

  lemma {:induction false} MergePermutes<T(!new)>(a: seq<T>, b: seq<T>, less: (T, T) -> bool)
    ensures multiset(Merge(a, b, less)) == multiset(a) + multiset(b)
    ensures |Merge(a, b, less)| == |a| + |b|
    decreases |a| + |b|
  {
    if a != [] && b != [] {
      if less(b[|b| - 1], a[|a| - 1]) {
        MergePermutes(a[..|a| - 1], b, less);
        Front(a);
      } else {
        MergePermutes(a, b[..|b| - 1], less);
        Front(b);
      }
    }
  }

  lemma {:induction false} MergeAtMost<T(!new)>(a: seq<T>, b: seq<T>, less: (T, T) -> bool, bound: T)
    requires AtMost(a, less, bound) && AtMost(b, less, bound)
    ensures AtMost(Merge(a, b, less), less, bound)
    decreases |a| + |b|
  {
    if a != [] && b != [] {
      if less(b[|b| - 1], a[|a| - 1]) {
        MergeAtMost(a[..|a| - 1], b, less, bound);
      } else {
        MergeAtMost(a, b[..|b| - 1], less, bound);
      }
    }
  }

  lemma {:induction false} MergeSorts<T(!new)>(a: seq<T>, b: seq<T>, less: (T, T) -> bool)
    requires StrictWeakOrder(less) && SortedBy(a, less) && SortedBy(b, less)
    ensures SortedBy(Merge(a, b, less), less)
    decreases |a| + |b|
  {
    hide SortedBy, AtMost;
    if a != [] && b != [] {
      SortedFront(a, less);
      SortedFront(b, less);
      var x, y := a[|a| - 1], b[|b| - 1];
      if less(y, x) {
        MergeSorts(a[..|a| - 1], b, less);
        AtMostMore(b, less, y, x);
        MergeAtMost(a[..|a| - 1], b, less, x);
        SortedAppend(Merge(a[..|a| - 1], b, less), x, less);
      } else {
        MergeSorts(a, b[..|b| - 1], less);
        AtMostMore(a, less, x, y);
        MergeAtMost(a, b[..|b| - 1], less, y);
        SortedAppend(Merge(a, b[..|b| - 1], less), y, less);
      }
    }
  }

  // ---- Sorting in place ----

  ghost function Replaced<T>(s: seq<T>, from: nat, part: seq<T>): (r: seq<T>)
    requires from + |part| <= |s|
    ensures |r| == |s|
  {
    s[..from] + part + s[from + |part|..]
  }

  lemma {:induction false} ReplacedKeeps<T(!new)>(s: seq<T>, from: nat, part: seq<T>, a: nat, b: nat)
    requires from + |part| <= |s| && a <= b <= |s| && (b <= from || from + |part| <= a)
    ensures Replaced(s, from, part)[a..b] == s[a..b]
  {
  }

  lemma {:induction false} ReplacedPart<T(!new)>(s: seq<T>, from: nat, part: seq<T>)
    requires from + |part| <= |s|
    ensures Replaced(s, from, part)[from..from + |part|] == part
  {
  }

  lemma {:induction false} ReplacedPermutes<T(!new)>(s: seq<T>, from: nat, part: seq<T>)
    requires from + |part| <= |s| && multiset(part) == multiset(s[from..from + |part|])
    ensures multiset(Replaced(s, from, part)) == multiset(s)
  {
    assert s == s[..from] + s[from..from + |part|] + s[from + |part|..];
  }

  method WriteRange<T>(a: array<T>, from: nat, part: seq<T>)
    requires from + |part| <= a.Length
    modifies a
    ensures a[..] == Replaced(old(a[..]), from, part)
  {
    var i: nat := 0;
    while i < |part|
      invariant i <= |part|
      invariant a[..from] == old(a[..from]) && a[from..from + i] == part[..i]
      invariant a[from + i..] == old(a[from + i..])
    {
      a[from + i] := part[i];
      i := i + 1;
    }
    assert a[..] == a[..from] + a[from..from + i] + a[from + i..];
  }

  /** Sorts one chunk. */
  method SortRange<T(!new)>(a: array<T>, from: nat, to: nat, less: (T, T) -> bool)
    requires from <= to <= a.Length
    modifies a
    ensures |Sort(old(a[from..to]), less)| == to - from
    ensures a[..] == Replaced(old(a[..]), from, Sort(old(a[from..to]), less))
  {
    hide Sort, Replaced;
    SortPermutes(a[from..to], less);
    WriteRange(a, from, Sort(a[from..to], less));
  }

  /** Merges two chunks that follow each other. */
  method MergeRange<T(!new)>(a: array<T>, from: nat, middle: nat, to: nat, less: (T, T) -> bool)
    requires from <= middle <= to <= a.Length
    modifies a
    ensures |Merge(old(a[from..middle]), old(a[middle..to]), less)| == to - from
    ensures a[..] == Replaced(old(a[..]), from, Merge(old(a[from..middle]), old(a[middle..to]), less))
  {
    hide Merge, Replaced;
    MergePermutes(a[from..middle], a[middle..to], less);
    WriteRange(a, from, Merge(a[from..middle], a[middle..to], less));
  }

  /** Each run between two edges is sorted. */
  ghost predicate SortedRuns<T(!new)>(s: seq<T>, edges: seq<nat>, from: nat, to: nat, less: (T, T) -> bool)
    requires to < |edges|
  {
    forall i :: from <= i < to ==> RunSorted(s, edges, i, less)
  }

  ghost predicate RunSorted<T(!new)>(s: seq<T>, edges: seq<nat>, i: nat, less: (T, T) -> bool)
    requires i + 1 < |edges|
  {
    edges[i] <= edges[i + 1] <= |s| && SortedBy(s[edges[i]..edges[i + 1]], less)
  }

  lemma {:induction false} EdgesOrdered(edges: seq<nat>, count: nat, i: nat, j: nat)
    requires AreEdges(edges, count) && i <= j < |edges|
    ensures edges[i] <= edges[j] <= count
    decreases |edges| - i
  {
    if i < j {
      assert Size(edges, i) >= 0;
      EdgesOrdered(edges, count, i + 1, j);
    } else if j + 1 < |edges| {
      assert Size(edges, j) >= 0;
      EdgesOrdered(edges, count, j + 1, |edges| - 1);
    }
  }

  /** Replacing one run keeps the others. */
  lemma {:induction false} RunsKept<T(!new)>(s: seq<T>, edges: seq<nat>, at: nat, part: seq<T>, to: nat, i: nat,
                                             less: (T, T) -> bool)
    requires AreEdges(edges, |s|) && at <= to < |edges| && edges[at] + |part| == edges[to]
    requires i + 1 < |edges| && (i + 1 <= at || to <= i)
    requires RunSorted(s, edges, i, less)
    ensures edges[at] + |part| <= |s| && RunSorted(Replaced(s, edges[at], part), edges, i, less)
  {
    hide Replaced, SortedBy, AreEdges;
    EdgesOrdered(edges, |s|, to, |edges| - 1);
    if i + 1 <= at {
      EdgesOrdered(edges, |s|, i + 1, at);
    } else {
      EdgesOrdered(edges, |s|, to, i);
    }
    ReplacedKeeps(s, edges[at], part, edges[i], edges[i + 1]);
  }

  /** Sorts each chunk of a range. The chunks do not overlap, so that their order does not matter. */
  method SortChunks<T(!new)>(a: array<T>, edges: seq<nat>, less: (T, T) -> bool)
    requires StrictWeakOrder(less) && AreEdges(edges, a.Length)
    modifies a
    ensures SortedRuns(a[..], edges, 0, |edges| - 1, less) && multiset(a[..]) == multiset(old(a[..]))
  {
    hide Sort, Replaced, SortedBy, RunSorted;
    var i: nat := 0;
    while i < |edges| - 1
      invariant i <= |edges| - 1 && SortedRuns(a[..], edges, 0, i, less)
      invariant multiset(a[..]) == multiset(old(a[..]))
    {
      EdgesOrdered(edges, a.Length, i, i + 1);
      ChunkSorted(a[..], edges, i, less);
      SortRange(a, edges[i], edges[i + 1], less);
      i := i + 1;
    }
  }

  lemma {:induction false} ChunkSorted<T(!new)>(s: seq<T>, edges: seq<nat>, i: nat, less: (T, T) -> bool)
    requires StrictWeakOrder(less) && AreEdges(edges, |s|) && i + 1 < |edges| && SortedRuns(s, edges, 0, i, less)
    ensures edges[i] <= edges[i + 1] <= |s| && |Sort(s[edges[i]..edges[i + 1]], less)| == edges[i + 1] - edges[i]
    ensures var t := Replaced(s, edges[i], Sort(s[edges[i]..edges[i + 1]], less));
      SortedRuns(t, edges, 0, i + 1, less) && multiset(t) == multiset(s)
  {
    hide Sort, Replaced, SortedBy;
    EdgesOrdered(edges, |s|, i, i + 1);
    var chunk := s[edges[i]..edges[i + 1]];
    SortSorts(chunk, less);
    var part := Sort(chunk, less);
    ReplacedPart(s, edges[i], part);
    ReplacedPermutes(s, edges[i], part);
    var t := Replaced(s, edges[i], part);
    assert RunSorted(t, edges, i, less);
    hide RunSorted, AreEdges;
    forall k | 0 <= k < i
      ensures RunSorted(t, edges, k, less)
    {
      assert RunSorted(s, edges, k, less);
      RunsKept(s, edges, i, part, i + 1, k, less);
    }
  }

  /** Runs of which those before an edge have been merged in pairs. */
  ghost predicate MergedTo<T(!new)>(s: seq<T>, runs: seq<nat>, merged: seq<nat>, pairs: nat, less: (T, T) -> bool) {
    && AreEdges(runs, |s|) && 2 * pairs < |runs| && |merged| == pairs + 1
    && (forall j :: 0 <= j <= pairs ==> merged[j] == runs[2 * j])
    && SortedRuns(s, merged, 0, pairs, less) && SortedRuns(s, runs, 2 * pairs, |runs| - 1, less)
  }

  lemma {:induction false} PairMerged<T(!new)>(s: seq<T>, runs: seq<nat>, merged: seq<nat>, pairs: nat,
                                               less: (T, T) -> bool)
    requires StrictWeakOrder(less) && MergedTo(s, runs, merged, pairs, less) && 2 * pairs + 2 < |runs|
    ensures var from, middle, to := runs[2 * pairs], runs[2 * pairs + 1], runs[2 * pairs + 2];
      && from <= middle <= to <= |s|
      && var part := Merge(s[from..middle], s[middle..to], less);
         && |part| == to - from
         && var t := Replaced(s, from, part);
            MergedTo(t, runs, merged + [to], pairs + 1, less) && multiset(t) == multiset(s)
  {
    hide Merge, Replaced, SortedBy, AreEdges;
    var at := 2 * pairs;
    EdgesOrdered(runs, |s|, at, at + 1);
    EdgesOrdered(runs, |s|, at + 1, at + 2);
    var from, middle, to := runs[at], runs[at + 1], runs[at + 2];
    assert RunSorted(s, runs, at, less) && RunSorted(s, runs, at + 1, less);
    var part := Merge(s[from..middle], s[middle..to], less);
    MergeSorts(s[from..middle], s[middle..to], less);
    MergePermutes(s[from..middle], s[middle..to], less);
    assert s[from..to] == s[from..middle] + s[middle..to];
    ReplacedPart(s, from, part);
    ReplacedPermutes(s, from, part);
    var t, next := Replaced(s, from, part), merged + [to];
    assert RunSorted(t, next, pairs, less);
    forall j | 0 <= j < pairs
      ensures RunSorted(t, next, j, less)
    {
      assert RunSorted(s, merged, j, less);
      EdgesOrdered(runs, |s|, 2 * (j + 1), at);
      ReplacedKeeps(s, from, part, merged[j], merged[j + 1]);
    }
    forall i | at + 2 <= i < |runs| - 1
      ensures RunSorted(t, runs, i, less)
    {
      assert RunSorted(s, runs, i, less);
      RunsKept(s, runs, at, part, at + 2, i, less);
    }
  }

  lemma {:induction false} MergedEdges<T(!new)>(s: seq<T>, runs: seq<nat>, merged: seq<nat>, pairs: nat,
                                                less: (T, T) -> bool)
    requires MergedTo(s, runs, merged, pairs, less) && 2 * pairs + 2 >= |runs| > 2
    ensures var all := if |runs| % 2 == 0 then merged + [runs[|runs| - 1]] else merged;
      AreEdges(all, |s|) && SortedRuns(s, all, 0, |all| - 1, less) && |all| < |runs|
  {
    hide SortedBy;
    var all := if |runs| % 2 == 0 then merged + [runs[|runs| - 1]] else merged;
    forall j | 0 <= j < |all| - 1
      ensures Size(all, j) >= 0 && RunSorted(s, all, j, less)
    {
      if j < pairs {
        assert RunSorted(s, merged, j, less);
      } else {
        assert RunSorted(s, runs, 2 * pairs, less);
      }
    }
  }

  /** Merges runs in pairs, and the edges that are left. */
  method MergePass<T(!new)>(a: array<T>, runs: seq<nat>, less: (T, T) -> bool) returns (merged: seq<nat>)
    requires StrictWeakOrder(less) && AreEdges(runs, a.Length)
    requires |runs| > 2 && SortedRuns(a[..], runs, 0, |runs| - 1, less)
    modifies a
    ensures AreEdges(merged, a.Length) && SortedRuns(a[..], merged, 0, |merged| - 1, less)
    ensures |merged| < |runs| && multiset(a[..]) == multiset(old(a[..]))
  {
    merged := [runs[0]];
    var at: nat := 2;
    ghost var pairs: nat := 0;
    while at < |runs|
      invariant at == 2 * pairs + 2 && MergedTo(a[..], runs, merged, pairs, less)
      invariant multiset(a[..]) == multiset(old(a[..]))
    {
      hide MergedTo, Merge, Replaced, AreEdges;
      PairMerged(a[..], runs, merged, pairs, less);
      MergeRange(a, runs[at - 2], runs[at - 1], runs[at], less);
      merged := merged + [runs[at]];
      at, pairs := at + 2, pairs + 1;
    }
    MergedEdges(a[..], runs, merged, pairs, less);
    if |runs| % 2 == 0 {
      merged := merged + [runs[|runs| - 1]];
    }
  }

  /** Sorts a range on its own, or in chunks that are merged pairwise until one remains. */
  method ParallelSort<T(!new)>(a: array<T>, parallel: bool, floor: nat, workers: nat, less: (T, T) -> bool)
    requires StrictWeakOrder(less) && floor > 0
    modifies a
    ensures SortedBy(a[..], less) && multiset(a[..]) == multiset(old(a[..]))
  {
    hide Sort, SortedBy, Replaced;
    if !parallel || Chunks(a.Length, floor, workers) < 2 {
      SortSorts(a[..], less);
      assert a[0..a.Length] == a[..];
      WholeReplaced(a[..], Sort(a[..], less));
      SortRange(a, 0, a.Length, less);
      return;
    }
    var runs := Bounds(a.Length, floor, workers);
    SortChunks(a, runs, less);
    while |runs| > 2
      invariant AreEdges(runs, a.Length) && SortedRuns(a[..], runs, 0, |runs| - 1, less)
      invariant multiset(a[..]) == multiset(old(a[..]))
      decreases |runs|
    {
      hide AreEdges, SortedRuns;
      runs := MergePass(a, runs, less);
    }
    assert RunSorted(a[..], runs, 0, less);
    assert a[..][0..a.Length] == a[..];
  }

  lemma {:induction false} WholeReplaced<T(!new)>(s: seq<T>, part: seq<T>)
    requires |part| == |s|
    ensures Replaced(s, 0, part) == part
  {
  }
}
