/** The transaction commitment of a block: Merkle roots, branches and 32 byte malleation.

    The double sha256 of two digests is modelled by the free constructor `Pair`, and a
    transaction id by `Leaf`: hashing is injective, and no transaction id is the hash of
    two digests. Everything else (pairing, cloning, index folding) is as in the source.
 */
module Merkle {

  datatype Digest<T> = Null | Leaf(id: T) | Pair(left: Digest<T>, right: Digest<T>)

  ghost function Height<T>(digest: Digest<T>): nat {
    if digest.Pair? then 1 + Height(digest.left) else 0
  }

  ghost predicate AllAt<T>(digests: seq<Digest<T>>, height: nat) {
    forall i :: 0 <= i < |digests| ==> Height(digests[i]) == height
  }

  function Leaves<T>(ids: seq<T>): (r: seq<Digest<T>>)
    ensures |r| == |ids|
    ensures forall i :: 0 <= i < |ids| ==> r[i] == Leaf(ids[i])
  {
    seq(|ids|, i requires 0 <= i < |ids| => Leaf(ids[i]))
  }

  // ---- The tree, level by level ----

  /** The digests of one level, with the last one cloned when their count is odd. */
  function Evened<A>(s: seq<A>): (r: seq<A>) {
    if |s| % 2 == 1 then s + [s[|s| - 1]] else s
  }

  /** Adjacent digests hashed pairwise, the last one paired with itself when odd. */
  function Level<T>(s: seq<Digest<T>>): (r: seq<Digest<T>>)
    ensures |r| == (|s| + 1) / 2
  {
    if |s| == 0 then []
    else if |s| == 1 then [Pair(s[0], s[0])]
    else [Pair(s[0], s[1])] + Level(s[2..])
  }

  lemma {:induction false} LevelNode<T>(s: seq<Digest<T>>, i: nat)
    requires i < |Level(s)|
    ensures Level(s)[i] == Pair(s[2 * i], if 2 * i + 1 < |s| then s[2 * i + 1] else s[2 * i])
  {
    if i > 0 {
      LevelNode(s[2..], i - 1);
    }
  }

  lemma {:induction false} LevelEvened<T>(s: seq<Digest<T>>)
    ensures Level(Evened(s)) == Level(s)
  {
    if |s| > 1 {
      LevelEvened(s[2..]);
      assert Evened(s)[2..] == Evened(s[2..]);
    }
  }

  lemma {:induction false} LevelInjective<T>(s: seq<Digest<T>>, t: seq<Digest<T>>)
    requires |s| == |t| && Level(s) == Level(t)
    ensures s == t
  {
    if |s| > 1 {
      assert Level(s)[0] == Level(t)[0] && Level(s)[1..] == Level(t)[1..];
      LevelInjective(s[2..], t[2..]);
      assert s == s[..2] + s[2..] && t == t[..2] + t[2..];
    } else if |s| == 1 {
      assert Level(s)[0] == Level(t)[0];
    }
  }

  function Root<T>(s: seq<Digest<T>>): Digest<T>
    decreases |s|
  {
    if |s| == 0 then Null else if |s| == 1 then s[0] else Root(Level(s))
  }

  lemma {:induction false} LevelFirst<T>(s: seq<Digest<T>>)
    requires |s| >= 2
    ensures Level(s) == [Pair(s[0], s[1])] + Level(s[2..])
  {
  }

  /** The hash of each adjacent pair of an even count of digests. */
  method MerkleHash<T>(digests: seq<Digest<T>>) returns (halved: seq<Digest<T>>)
    requires |digests| % 2 == 0
    ensures halved == Level(digests)
  {
    halved := [];
    var at: nat := 0;
    while at < |digests|
      invariant at <= |digests| && at % 2 == 0
      invariant halved + Level(digests[at..]) == Level(digests)
    {
      LevelFirst(digests[at..]);
      assert digests[at..][2..] == digests[at + 2..];
      hide Level;
      halved := halved + [Pair(digests[at], digests[at + 1])];
      at := at + 2;
    }
  }

  /** The loop of the source: the digest vector is halved in place until one remains. */
  method MerkleRoot<T>(digests: seq<Digest<T>>) returns (root: Digest<T>)
    ensures root == Root(digests)
  {
    if |digests| == 0 {
      return Null;
    }
    var level := digests;
    while |level| != 1
      invariant |level| > 0
      invariant Root(level) == Root(digests)
      decreases |level|
    {
      LevelEvened(level);
      if |level| % 2 == 1 {
        level := level + [level[|level| - 1]];
      }
      level := MerkleHash(level);
    }
    root := level[0];
  }

  lemma {:induction false} RootInjective<T>(s: seq<Digest<T>>, t: seq<Digest<T>>)
    requires |s| == |t|
    requires Root(s) == Root(t)
    ensures s == t
    decreases |s|
  {
    if |s| >= 2 {
      RootInjective(Level(s), Level(t));
      LevelInjective(s, t);
    }
  }

  lemma {:induction false} LevelHeight<T>(s: seq<Digest<T>>, height: nat)
    requires |s| > 0 && AllAt(s, height)
    ensures AllAt(Level(s), height + 1)
  {
    forall i | 0 <= i < |Level(s)|
      ensures Height(Level(s)[i]) == height + 1
    {
      LevelNode(s, i);
    }
  }

  lemma {:induction false} RootHeight<T>(s: seq<Digest<T>>, height: nat)
    requires |s| > 0 && AllAt(s, height)
    ensures Height(Root(s)) >= height
    ensures |s| > 1 ==> Height(Root(s)) > height
    decreases |s|
  {
    if |s| > 1 {
      LevelHeight(s, height);
      RootHeight(Level(s), height + 1);
    }
  }

  // ---- Widths: the level whose nodes each cover width leaves ----

  predicate IsPower2(width: nat) {
    width == 1 || (width > 0 && width % 2 == 0 && IsPower2(width / 2))
  }

  lemma {:induction false} PowerGap(v: nat, w: nat)
    requires IsPower2(v) && IsPower2(w) && v <= w < 2 * v
    ensures w == v
    decreases v
  {
    if v > 1 {
      PowerGap(v / 2, w / 2);
    }
  }

  function LevelAt<T>(s: seq<Digest<T>>, width: nat): (r: seq<Digest<T>>)
    requires |s| > 0 && IsPower2(width)
    ensures |r| > 0
    decreases width
  {
    if width == 1 then s else LevelAt(Level(s), width / 2)
  }

  lemma {:induction false} LevelAtOuter<T>(s: seq<Digest<T>>, width: nat)
    requires |s| > 0 && IsPower2(width)
    ensures IsPower2(2 * width)
    ensures LevelAt(s, 2 * width) == Level(LevelAt(s, width))
    decreases width
  {
    assert 2 * width / 2 == width;
    if width > 1 {
      LevelAtOuter(Level(s), width / 2);
    }
  }

  /** The count of nodes over size leaves at width: the quotient, ceilinged at each level. */
  function Count(size: nat, width: nat): nat
    requires IsPower2(width)
    decreases width
  {
    if width == 1 then size else Count((size + 1) / 2, width / 2)
  }

  /** The first leaf below node index at width: index * width. */
  function Offset(index: nat, width: nat): nat
    requires IsPower2(width)
    decreases width
  {
    if width == 1 then index else Offset(2 * index, width / 2)
  }

  lemma {:induction false} OffsetIsProduct(index: nat, width: nat)
    requires IsPower2(width)
    ensures Offset(index, width) == index * width
    decreases width
  {
    if width > 1 {
      OffsetIsProduct(2 * index, width / 2);
      assert (2 * index) * (width / 2) == index * width by {
        assert width == 2 * (width / 2);
      }
    }
  }

  lemma {:induction false} OffsetNext(index: nat, width: nat)
    requires IsPower2(width)
    ensures Offset(index + 1, width) == Offset(index, width) + width
    decreases width
  {
    if width > 1 {
      OffsetNext(2 * index, width / 2);
      OffsetNext(2 * index + 1, width / 2);
    }
  }

  lemma {:induction false} OffsetMonotone(i: nat, j: nat, width: nat)
    requires IsPower2(width)
    ensures i <= j <==> Offset(i, width) <= Offset(j, width)
    decreases width
  {
    if width > 1 {
      OffsetMonotone(2 * i, 2 * j, width / 2);
    }
  }

  /** Leaf at lies below node index, for some index, exactly when both bounds hold. */
  lemma {:induction false} CountBounds(size: nat, index: nat, width: nat)
    requires IsPower2(width)
    ensures index < Count(size, width) <==> Offset(index, width) < size
    decreases width
  {
    if width > 1 {
      CountBounds((size + 1) / 2, index, width / 2);
      OffsetEven(index, width);
    }
  }

  lemma {:induction false} OffsetEven(index: nat, width: nat)
    requires IsPower2(width) && width > 1
    ensures Offset(index, width) == 2 * Offset(index, width / 2)
    decreases width
  {
    if width / 2 > 1 {
      OffsetEven(2 * index, width / 2);
    }
  }

  lemma {:induction false} CountAt<T>(s: seq<Digest<T>>, width: nat)
    requires |s| > 0 && IsPower2(width)
    ensures |LevelAt(s, width)| == Count(|s|, width)
    decreases width
  {
    hide Level;
    if width > 1 {
      CountAt(Level(s), width / 2);
    }
  }

  /** A level below the root leaves the root unchanged. */
  lemma {:induction false} RootAt<T>(s: seq<Digest<T>>, width: nat)
    requires |s| > 0 && IsPower2(width) && |LevelAt(s, width)| >= 2
    ensures Root(LevelAt(s, width)) == Root(s)
    decreases width
  {
    hide Level;
    if width > 1 {
      RootAt(Level(s), width / 2);
      CountAt(s, width);
      if |s| == 1 {
        SingleCount(width);
      }
    }
  }

  lemma {:induction false} SingleCount(width: nat)
    requires IsPower2(width)
    ensures Count(1, width) == 1
    decreases width
  {
    if width > 1 {
      SingleCount(width / 2);
    }
  }

  // ---- The leaves of one node ----

  /** The node of the given width over s, completed by cloning. */
  ghost function Node<T>(s: seq<Digest<T>>, width: nat): Digest<T>
    requires IsPower2(width) && 0 < |s| <= width
    decreases width
  {
    if width == 1 then s[0]
    else
      var half := width / 2;
      if |s| <= half then Pair(Node(s, half), Node(s, half))
      else Pair(Node(s[..half], half), Node(s[half..], half))
  }

  /** The width leaves of that node. */
  ghost function Padded<A>(s: seq<A>, width: nat): (r: seq<A>)
    requires IsPower2(width) && 0 < |s| <= width
    ensures |r| == width
    decreases width
  {
    if width == 1 then s
    else
      var half := width / 2;
      if |s| <= half then Padded(s, half) + Padded(s, half)
      else s[..half] + Padded(s[half..], half)
  }

  lemma {:induction false} PaddedWhole<A>(s: seq<A>, width: nat)
    requires IsPower2(width) && |s| == width
    ensures Padded(s, width) == s
    decreases width
  {
    if width > 1 {
      PaddedWhole(s[width / 2..], width / 2);
    }
  }

  /** Nodes are equal exactly when their padded leaves are. */
  lemma {:induction false} NodeInjective<T>(s: seq<Digest<T>>, t: seq<Digest<T>>, width: nat)
    requires IsPower2(width) && 0 < |s| <= width && 0 < |t| <= width
    ensures Node(s, width) == Node(t, width) <==> Padded(s, width) == Padded(t, width)
    decreases width
  {
    if width > 1 {
      var half := width / 2;
      var (s0, s1) := Halves(s, width);
      var (t0, t1) := Halves(t, width);
      NodeInjective(s0, t0, half);
      NodeInjective(s1, t1, half);
      var p, q := Padded(s, width), Padded(t, width);
      assert p[..half] == Padded(s0, half) && p[half..] == Padded(s1, half);
      assert q[..half] == Padded(t0, half) && q[half..] == Padded(t1, half);
      assert p == p[..half] + p[half..] && q == q[..half] + q[half..];
    }
  }

  /** The leaves of the two children of a node. */
  ghost function Halves<T>(s: seq<Digest<T>>, width: nat): (r: (seq<Digest<T>>, seq<Digest<T>>))
    requires IsPower2(width) && 0 < |s| <= width && width > 1
    ensures 0 < |r.0| <= width / 2 && 0 < |r.1| <= width / 2
    ensures Node(s, width) == Pair(Node(r.0, width / 2), Node(r.1, width / 2))
    ensures Padded(s, width) == Padded(r.0, width / 2) + Padded(r.1, width / 2)
  {
    var half := width / 2;
    if |s| <= half then (s, s)
    else
      PaddedWhole(s[..half], half);
      (s[..half], s[half..])
  }

  /** The leaves from an offset covered by a node of the given width. */
  ghost function Cover<A>(s: seq<A>, from: nat, width: nat): (r: seq<A>)
    requires from < |s|
  {
    s[from .. if from + width < |s| then from + width else |s|]
  }

  lemma {:induction false} NodeOne<T>(s: seq<Digest<T>>)
    requires |s| == 1
    ensures Node(s, 1) == s[0]
  {
  }

  lemma {:induction false} CoverHalves<T>(s: seq<Digest<T>>, from: nat, width: nat)
    requires from < |s| && IsPower2(width) && width > 1
    ensures Node(Cover(s, from, width), width) ==
            Pair(Node(Cover(s, from, width / 2), width / 2),
                 Node(Cover(s, if from + width / 2 < |s| then from + width / 2 else from, width / 2), width / 2))
  {
    var half, cover := width / 2, Cover(s, from, width);
    if from + half < |s| {
      assert cover[..half] == Cover(s, from, half);
      assert cover[half..] == Cover(s, from + half, half);
    } else {
      assert cover == Cover(s, from, half);
    }
  }

  /** Node index of the level at width is the node over the leaves it covers. */
  lemma {:induction false} NodeAt<T>(s: seq<Digest<T>>, index: nat, width: nat)
    requires |s| > 0 && IsPower2(width) && index < |LevelAt(s, width)|
    ensures Offset(index, width) < |s|
    ensures LevelAt(s, width)[index] == Node(Cover(s, Offset(index, width), width), width)
    decreases width
  {
    hide Level, Node, Count;
    CountAt(s, width);
    CountBounds(|s|, index, width);
    if width == 1 {
      NodeOne(Cover(s, index, 1));
    } else {
      var half := width / 2;
      LevelAtOuter(s, half);
      var below := LevelAt(s, half);
      LevelNode(below, index);
      var from := Offset(index, width);
      NodeAt(s, 2 * index, half);
      OffsetNext(2 * index, half);
      CountAt(s, half);
      CountBounds(|s|, 2 * index + 1, half);
      CoverHalves(s, from, width);
      if from + half < |s| {
        NodeAt(s, 2 * index + 1, half);
      }
    }
  }

  lemma {:induction false} PaddedHalves<A>(node: seq<A>, width: nat)
    requires IsPower2(width) && width > 1 && 0 < |node| <= width
    ensures |node| <= width / 2 ==> Padded(node, width) == Padded(node, width / 2) + Padded(node, width / 2)
    ensures |node| > width / 2 ==> Padded(node, width) == node[..width / 2] + Padded(node[width / 2..], width / 2)
  {
  }

  /** One turn of the loop: the child of the padded node that holds the position. */
  lemma {:induction false} PaddedFold<A>(node: seq<A>, at: nat, width: nat)
    requires IsPower2(width) && width > 1 && 0 < |node| <= width && at < width
    ensures var half := width / 2;
      if |node| <= half then Padded(node, width)[at] == Padded(node, half)[if at < half then at else at - half]
      else if at < half then Padded(node, width)[at] == node[at]
      else Padded(node, width)[at] == Padded(node[half..], half)[at - half]
  {
    hide Padded;
    PaddedHalves(node, width);
  }

  lemma {:induction false} FoldOnce(at: nat, span: nat)
    requires span > 0 && at < 2 * span
    ensures at % span == if at < span then at else at - span
  {
    assert at >= span ==> at == 1 * span + (at - span);
  }

  /** The index folding loop yields the leaf that fills a position of the padded node. */
  method MerkleIndex<A>(ghost leaves: seq<A>, position: nat, count: nat, width: nat)
    returns (index: nat)
    requires IsPower2(width) && 0 < count <= width && position < width
    requires |leaves| == count
    ensures index < count
    ensures Padded(leaves, width)[position] == leaves[index]
  {
    hide Padded;
    var base: nat, at: nat, left: nat, span: nat := 0, position, count, width;
    ghost var node := leaves;
    while left < span
      invariant IsPower2(span) && 0 < left <= span && at < span
      invariant base + left == count && node == leaves[base..]
      invariant Padded(leaves, width)[position] == Padded(node, span)[at]
      decreases span
    {
      PaddedFold(node, at, span);
      span := span / 2;
      if left <= span {
        FoldOnce(at, span);
        at := at % span;
      } else if at < span {
        return base + at;
      } else {
        node := node[span..];
        base := base + span;
        at := at - span;
        left := left - span;
      }
    }
    PaddedWhole(node, span);
    index := base + at;
  }

  // ---- Malleation ----

  /** At width depth the node count is even and above two, and the last two nodes are equal. */
  ghost predicate MalleatedAt<T>(ids: seq<T>, width: nat) {
    |ids| > 0 && IsPower2(width) &&
    var level := LevelAt(Leaves(ids), width);
    |level| % 2 == 0 && |level| > 2 && level[|level| - 1] == level[|level| - 2]
  }

  function CeilingedDivide(dividend: nat, divisor: nat): nat
    requires divisor > 0
  {
    dividend / divisor + (if dividend % divisor == 0 then 0 else 1)
  }

  /** The ceilinged quotient is the node count of the level. */
  lemma {:induction false} CeilingedIsCount(size: nat, width: nat)
    requires IsPower2(width)
    ensures CeilingedDivide(size, width) == Count(size, width)
  {
    var count := CeilingedDivide(size, width);
    assert size == (size / width) * width + size % width;
    assert count == size / width + 1 ==> count * width == (size / width) * width + width;
    OffsetIsProduct(count, width);
    CountBounds(size, count, width);
    if count > 0 {
      assert (count - 1) * width == count * width - width;
      OffsetIsProduct(count - 1, width);
      CountBounds(size, count - 1, width);
    }
  }

  lemma {:induction false} MalleatedWidth<T>(ids: seq<T>, width: nat)
    requires MalleatedAt(ids, width)
    ensures width <= |ids| / 2
  {
    CountAt(Leaves(ids), width);
    CountBounds(|ids|, 2, width);
    OffsetIsProduct(2, width);
  }

  lemma {:induction false} MalleatedPower<T>(ids: seq<T>, width: nat)
    requires MalleatedAt(ids, width)
    ensures IsPower2(width)
  {
  }

  /** The last two nodes of an even level are equal exactly when the leaves of the prior
      one are the padded leaves of the last one. */
  lemma {:induction false} LastNodes<T>(ids: seq<T>, width: nat)
    requires |ids| > 0 && IsPower2(width)
    requires var count := CeilingedDivide(|ids|, width); count > 2 && count % 2 == 0
    ensures var last := (CeilingedDivide(|ids|, width) - 1) * width;
      0 <= last - width < last < |ids| <= last + width &&
      (MalleatedAt(ids, width) <==>
       Padded(Leaves(ids)[last..], width) == Leaves(ids)[last - width..last])
  {
    hide LevelAt, Padded, Node, Count, Offset, CeilingedDivide;
    var count := CeilingedDivide(|ids|, width);
    var leaves := Leaves(ids);
    CeilingedIsCount(|ids|, width);
    CountAt(leaves, width);
    OffsetIsProduct(count - 1, width);
    OffsetNext(count - 2, width);
    OffsetNext(count - 1, width);
    CountBounds(|ids|, count, width);
    NodeAt(leaves, count - 1, width);
    NodeAt(leaves, count - 2, width);
    var last := Offset(count - 1, width);
    assert Cover(leaves, last, width) == leaves[last..];
    NodeInjective(leaves[last..], leaves[last - width..last], width);
    PaddedWhole(leaves[last - width..last], width);
  }

  /** The test at one width, on leaves alone, decides equality of the two last nodes. */
  method IsMalleated32Width<T(==)>(ids: seq<T>, width: nat) returns (malleated: bool)
    ensures malleated <==> MalleatedAt(ids, width)
  {
    hide LevelAt, Padded;
    if !IsPower2(width) || width > |ids| / 2 {
      if MalleatedAt(ids, width) {
        MalleatedWidth(ids, width);
      }
      return false;
    }
    var count := CeilingedDivide(|ids|, width);
    if count % 2 == 1 || count <= 2 {
      CeilingedIsCount(|ids|, width);
      CountAt(Leaves(ids), width);
      return false;
    }
    LastNodes(ids, width);
    hide CeilingedDivide, MalleatedAt;
    var last := (count - 1) * width;
    var prior := last - width;
    ghost var tail, before := Leaves(ids)[last..], Leaves(ids)[prior..last];
    for at := 0 to width
      invariant forall k :: 0 <= k < at ==> Padded(tail, width)[k] == before[k]
    {
      var index := MerkleIndex(tail, at, |ids| - last, width);
      if ids[last + index] != ids[prior + at] {
        assert Padded(tail, width)[at] != before[at];
        return false;
      }
    }
    assert Padded(tail, width) == before;
    return true;
  }

  /** Keeping all but the last, cloned, node of a level keeps the root. */
  lemma {:induction false} ShorterAt<T>(ids: seq<T>, width: nat) returns (shorter: seq<T>)
    requires MalleatedAt(ids, width)
    ensures 0 < |shorter| < |ids|
    ensures Root(Leaves(shorter)) == Root(Leaves(ids))
  {
    hide LevelAt, Level, Node, Count, Offset, Leaves;
    var s := Leaves(ids);
    var level := LevelAt(s, width);
    var kept := |level| - 1;
    CountAt(s, width);
    CountBounds(|s|, kept, width);
    OffsetMonotone(1, kept, width);
    OffsetNext(0, width);
    shorter := ids[..Offset(kept, width)];
    PrefixLevel(ids, kept, width);
    var t := Leaves(shorter);
    assert Evened(LevelAt(t, width)) == level;
    LevelEvened(LevelAt(t, width));
    RootAt(s, width);
    RootAt(t, width);
  }

  /** The leaves below the first nodes of a level have those nodes as their level. */
  lemma {:induction false} PrefixLevel<T>(ids: seq<T>, kept: nat, width: nat)
    requires |ids| > 0 && IsPower2(width) && kept > 0 && 0 < Offset(kept, width) <= |ids|
    requires kept <= |LevelAt(Leaves(ids), width)|
    ensures LevelAt(Leaves(ids[..Offset(kept, width)]), width) == LevelAt(Leaves(ids), width)[..kept]
  {
    hide LevelAt, Level, Node, Count, Offset;
    var s, t := Leaves(ids), Leaves(ids[..Offset(kept, width)]);
    var level := LevelAt(t, width);
    CountAt(t, width);
    CountBounds(|t|, kept, width);
    CountBounds(|t|, kept - 1, width);
    OffsetNext(kept - 1, width);
    assert |level| == kept;
    forall i | 0 <= i < kept
      ensures level[i] == LevelAt(s, width)[i]
    {
      NodeAt(s, i, width);
      NodeAt(t, i, width);
      OffsetNext(i, width);
      OffsetMonotone(i + 1, kept, width);
      assert Cover(s, Offset(i, width), width) == Cover(t, Offset(i, width), width);
    }
  }

  lemma {:induction false} PaddedLeaves<T>(ids: seq<T>, width: nat)
    requires IsPower2(width) && 0 < |ids| <= width
    ensures Padded(Leaves(ids), width) == Leaves(Padded(ids, width))
    decreases width
  {
    if width > 1 {
      var half := width / 2;
      if |ids| <= half {
        PaddedLeaves(ids, half);
      } else {
        PaddedLeaves(ids[half..], half);
        assert Leaves(ids)[half..] == Leaves(ids[half..]);
      }
      LeavesJoin(ids, half, width);
    }
  }

  lemma {:induction false} LeavesJoin<T>(ids: seq<T>, half: nat, width: nat)
    requires IsPower2(half) && 0 < |ids| && width == 2 * half && IsPower2(width) && |ids| <= width
    ensures |ids| <= half ==> Leaves(Padded(ids, width)) == Leaves(Padded(ids, half)) + Leaves(Padded(ids, half))
    ensures |ids| > half ==> Leaves(Padded(ids, width)) == Leaves(ids)[..half] + Leaves(Padded(ids[half..], half))
  {
    if |ids| <= half {
      var p := Padded(ids, half);
      assert Padded(ids, width) == p + p;
    } else {
      var p := Padded(ids[half..], half);
      assert Padded(ids, width) == ids[..half] + p;
    }
    hide Padded;
  }

  /** Appending clones of the last node of an odd level keeps the root. */
  lemma {:induction false} LongerAt<T>(ids: seq<T>, width: nat) returns (longer: seq<T>)
    requires |ids| > 0 && IsPower2(width)
    requires |LevelAt(Leaves(ids), width)| % 2 == 1 && |LevelAt(Leaves(ids), width)| > 1
    ensures |longer| > |ids|
    ensures Root(Leaves(longer)) == Root(Leaves(ids))
  {
    hide LevelAt, Level, Node, Count, Offset, Padded;
    var s := Leaves(ids);
    var level := LevelAt(s, width);
    var count := |level|;
    CountAt(s, width);
    CountBounds(|s|, count - 1, width);
    CountBounds(|s|, count, width);
    OffsetNext(count - 1, width);
    OffsetNext(count, width);
    var whole := Offset(count - 1, width);
    var cloned := Padded(ids[whole..], width);
    longer := ids[..whole] + cloned + cloned;
    var t := Leaves(longer);
    CountAt(t, width);
    CountBounds(|t|, count, width);
    CountBounds(|t|, count + 1, width);
    forall i | 0 <= i < count + 1
      ensures LevelAt(t, width)[i] == Evened(level)[i]
    {
      LongerNode(ids, longer, cloned, i, count, width);
    }
    assert LevelAt(t, width) == Evened(level);
    LevelEvened(level);
    RootAt(s, width);
    RootAt(t, width);
  }

  lemma {:induction false} LongerNode<T>(ids: seq<T>, longer: seq<T>, cloned: seq<T>, i: nat, count: nat, width: nat)
    requires |ids| > 0 && IsPower2(width) && 0 < count == |LevelAt(Leaves(ids), width)|
    requires Offset(count - 1, width) < |ids| <= Offset(count - 1, width) + width
    requires cloned == Padded(ids[Offset(count - 1, width)..], width)
    requires longer == ids[..Offset(count - 1, width)] + cloned + cloned
    requires i <= count && |LevelAt(Leaves(longer), width)| == count + 1
    ensures LevelAt(Leaves(longer), width)[i] ==
            LevelAt(Leaves(ids), width)[if i < count then i else count - 1]
  {
    hide LevelAt, Level, Node, Count, Offset, Padded;
    var s, t := Leaves(ids), Leaves(longer);
    var whole := Offset(count - 1, width);
    NodeAt(t, i, width);
    OffsetNext(i, width);
    if i < count - 1 {
      NodeAt(s, i, width);
      OffsetMonotone(i + 1, count - 1, width);
      assert Cover(s, Offset(i, width), width) == Cover(t, Offset(i, width), width);
    } else {
      NodeAt(s, count - 1, width);
      OffsetNext(count - 1, width);
      var tail := Cover(s, whole, width);
      assert tail == Leaves(ids[whole..]);
      assert Cover(t, Offset(i, width), width) == Leaves(cloned);
      PaddedLeaves(ids[whole..], width);
      PaddedWhole(Leaves(cloned), width);
      NodeInjective(tail, Leaves(cloned), width);
    }
  }

  /** Two levels of different lengths and equal root part at a width where only the
      longer one holds a copy of the last node. */
  lemma {:induction false} Collision<T>(s: seq<Digest<T>>, t: seq<Digest<T>>, height: nat)
    returns (width: nat)
    requires 0 < |t| < |s| && AllAt(s, height) && AllAt(t, height)
    requires Root(s) == Root(t)
    ensures IsPower2(width)
    ensures |LevelAt(t, width)| % 2 == 1 && |LevelAt(t, width)| > 1
    ensures var level := LevelAt(s, width);
      |level| == |LevelAt(t, width)| + 1 && level[|level| - 1] == level[|level| - 2]
    decreases |s|
  {
    RootHeight(s, height);
    var above, below := Level(s), Level(t);
    hide Level, LevelAt;
    if |below| < |above| {
      LevelHeight(s, height);
      LevelHeight(t, height);
      width := Collision(above, below, height + 1);
      LevelAtNext(s, width);
      LevelAtNext(t, width);
      width := 2 * width;
    } else {
      RootInjective(above, below);
      width := 1;
      LevelNode(s, |above| - 1);
      LevelNode(t, |above| - 1);
      LevelAtOne(s);
      LevelAtOne(t);
    }
  }

  lemma {:induction false} LevelAtOne<T>(s: seq<Digest<T>>)
    requires |s| > 0
    ensures IsPower2(1) && LevelAt(s, 1) == s
  {
  }

  lemma {:induction false} LevelAtNext<T>(s: seq<Digest<T>>, width: nat)
    requires |s| > 0 && IsPower2(width)
    ensures IsPower2(2 * width) && LevelAt(s, 2 * width) == LevelAt(Level(s), width)
  {
    hide Level;
  }

  /** A list of ids has the root of a shorter non-empty list exactly when it is malleated. */
  lemma {:induction false} ShorterIffMalleated<T>(ids: seq<T>)
    ensures (exists width :: MalleatedAt(ids, width)) <==>
            (exists shorter: seq<T> :: 0 < |shorter| < |ids| && Root(Leaves(shorter)) == Root(Leaves(ids)))
  {
    hide Root, Leaves, LevelAt;
    if width :| MalleatedAt(ids, width) {
      var shorter := ShorterAt(ids, width);
    }
    if shorter: seq<T> :| 0 < |shorter| < |ids| && Root(Leaves(shorter)) == Root(Leaves(ids)) {
      MalleatedByShorter(ids, shorter);
    }
  }

  lemma {:induction false} MalleatedByShorter<T>(ids: seq<T>, shorter: seq<T>)
    requires 0 < |shorter| < |ids| && Root(Leaves(shorter)) == Root(Leaves(ids))
    ensures exists width :: MalleatedAt(ids, width)
  {
    hide Root, LevelAt;
    var width := Collision(Leaves(ids), Leaves(shorter), 0);
    assert MalleatedAt(ids, width);
  }

  method IsMalleated32<T(==, !new)>(ids: seq<T>) returns (malleated: bool)
    ensures malleated <==>
            exists shorter: seq<T> :: 0 < |shorter| < |ids| && Root(Leaves(shorter)) == Root(Leaves(ids))
  {
    hide MalleatedAt, Root, Leaves;
    ShorterIffMalleated(ids);
    if MalleatedAt(ids, 0) {
      MalleatedPower(ids, 0);
    }
    var width: nat := 1;
    while width <= |ids| / 2
      invariant IsPower2(width)
      invariant forall w: nat :: w < width ==> !MalleatedAt(ids, w)
      decreases |ids| - width
    {
      var found := IsMalleated32Width(ids, width);
      if found {
        return true;
      }
      forall w: nat | width < w < 2 * width
        ensures !MalleatedAt(ids, w)
      {
        if MalleatedAt(ids, w) {
          MalleatedPower(ids, w);
          PowerGap(width, w);
        }
      }
      width := 2 * width;
    }
    forall w: nat
      ensures !MalleatedAt(ids, w)
    {
      if MalleatedAt(ids, w) {
        MalleatedWidth(ids, w);
      }
    }
    return false;
  }

  /** At width depth the tree over size leaves has an odd count of nodes above one. */
  predicate IsMalleable32Width(size: nat, width: nat) {
    IsPower2(width) && var count := CeilingedDivide(size, width); count % 2 == 1 && count != 1
  }

  /** A list of ids has the root of a longer list exactly when it is malleable. */
  lemma {:induction false} LongerIffMalleable<T(!new)>(ids: seq<T>)
    requires |ids| > 0
    ensures (exists width :: IsMalleable32Width(|ids|, width)) <==>
            (exists longer: seq<T> :: |longer| > |ids| && Root(Leaves(longer)) == Root(Leaves(ids)))
  {
    var s := Leaves(ids);
    if width :| IsMalleable32Width(|ids|, width) {
      CountAt(s, width);
      CeilingedIsCount(|ids|, width);
      var longer := LongerAt(ids, width);
    }
    if longer: seq<T> :| |longer| > |ids| && Root(Leaves(longer)) == Root(Leaves(ids)) {
      var width := Collision(Leaves(longer), s, 0);
      CountAt(s, width);
      CeilingedIsCount(|ids|, width);
      assert IsMalleable32Width(|ids|, width);
    }
  }

  lemma {:induction false} MalleableWidth(size: nat, width: nat)
    requires IsMalleable32Width(size, width)
    ensures width <= size
  {
    CeilingedIsCount(size, width);
    CountBounds(size, 1, width);
    OffsetIsProduct(1, width);
  }

  lemma {:induction false} RootNotNull<T>(s: seq<Digest<T>>)
    requires |s| > 0 && forall i :: 0 <= i < |s| ==> s[i] != Null
    ensures Root(s) != Null
    decreases |s|
  {
    if |s| > 1 {
      forall i | 0 <= i < |Level(s)|
        ensures Level(s)[i] != Null
      {
        LevelNode(s, i);
      }
      RootNotNull(Level(s));
    }
  }

  lemma {:induction false} EmptyRoot<T(!new)>()
    ensures forall longer: seq<T> :: |longer| > 0 ==> Root(Leaves(longer)) != Root(Leaves<T>([]))
  {
    forall longer: seq<T> | |longer| > 0
      ensures Root(Leaves(longer)) != Root(Leaves<T>([]))
    {
      RootNotNull(Leaves(longer));
    }
  }

  /** Widths are powers of two. */
  lemma {:induction false} NoWidthBetween(size: nat, width: nat)
    requires IsPower2(width)
    ensures IsPower2(2 * width) && forall w: nat :: width < w < 2 * width ==> !IsMalleable32Width(size, w)
  {
    hide CeilingedDivide;
    forall w: nat | width < w < 2 * width
      ensures !IsMalleable32Width(size, w)
    {
      if IsMalleable32Width(size, w) {
        PowerGap(width, w);
      }
    }
  }

  method IsMalleable32<T(!new)>(ids: seq<T>) returns (malleable: bool)
    ensures malleable <==>
            exists longer: seq<T> :: |longer| > |ids| && Root(Leaves(longer)) == Root(Leaves(ids))
  {
    hide Root, Leaves, CeilingedDivide;
    if |ids| == 0 {
      EmptyRoot<T>();
      return false;
    }
    LongerIffMalleable(ids);
    var width: nat := 1;
    while width <= |ids|
      invariant IsPower2(width)
      invariant forall w: nat :: w < width ==> !IsMalleable32Width(|ids|, w)
      decreases 2 * |ids| - width
    {
      if IsMalleable32Width(|ids|, width) {
        return true;
      }
      NoWidthBetween(|ids|, width);
      width := 2 * width;
    }
    forall w: nat
      ensures !IsMalleable32Width(|ids|, w)
    {
      if IsMalleable32Width(|ids|, w) {
        MalleableWidth(|ids|, w);
      }
    }
    return false;
  }

  // ---- Identity ----

  /** The commitment test of identify, given the verdict on the 64 byte form. */
  method Identify<T(==, !new)>(root: Digest<T>, ids: seq<T>, malleated64: bool) returns (ok: bool)
    ensures ok ==> !malleated64 && Root(Leaves(ids)) == root
    ensures ok ==> forall shorter: seq<T> :: 0 < |shorter| < |ids| ==> Root(Leaves(shorter)) != root
    ensures !ok ==> malleated64 || Root(Leaves(ids)) != root ||
                    exists shorter: seq<T> :: 0 < |shorter| < |ids| && Root(Leaves(shorter)) == root
  {
    if malleated64 {
      return false;
    }
    var malleated := IsMalleated32(ids);
    var actual := MerkleRoot(Leaves(ids));
    ok := !malleated && actual == root;
  }

  /** Of all lists of ids under one root, identify accepts exactly one. */
  lemma {:induction false} IdentityUnique<T>(s: seq<T>, t: seq<T>)
    requires |s| > 0 && |t| > 0
    requires Root(Leaves(s)) == Root(Leaves(t))
    requires forall width :: !MalleatedAt(s, width) && !MalleatedAt(t, width)
    ensures s == t
  {
    hide Root, LevelAt, MalleatedAt;
    if |s| < |t| {
      MalleatedByShorter(t, s);
    } else if |t| < |s| {
      MalleatedByShorter(s, t);
    } else {
      RootInjective(Leaves(s), Leaves(t));
      forall i | 0 <= i < |s|
        ensures s[i] == t[i]
      {
        assert Leaves(s)[i] == Leaves(t)[i];
      }
    }
  }

  // ---- Branches ----

  ghost function Branch<T>(s: seq<Digest<T>>, position: nat): seq<Digest<T>>
    requires position < |s|
    decreases |s|
  {
    if |s| == 1 then []
    else
      var sibling := if position % 2 == 0 then position + 1 else position - 1;
      [Evened(s)[sibling]] + Branch(Level(s), position / 2)
  }

  /** The root implied by a digest at a position and the siblings above it. */
  function BranchRoot<T>(digest: Digest<T>, position: nat, branch: seq<Digest<T>>): Digest<T>
    decreases |branch|
  {
    if branch == [] then digest
    else
      var parent := if position % 2 == 0 then Pair(digest, branch[0]) else Pair(branch[0], digest);
      BranchRoot(parent, position / 2, branch[1..])
  }

  lemma {:induction false} BranchNext<T>(s: seq<Digest<T>>, position: nat)
    requires position < |s| && |s| > 1
    ensures var sibling := if position % 2 == 0 then position + 1 else position - 1;
      sibling < |Evened(s)| && Branch(s, position) == [Evened(s)[sibling]] + Branch(Level(s), position / 2)
  {
  }

  lemma {:induction false} BranchTop<T>(s: seq<Digest<T>>)
    requires |s| == 1
    ensures Branch(s, 0) == []
  {
  }

  method MerkleBranch<T>(position: nat, leaves: seq<Digest<T>>) returns (branch: seq<Digest<T>>)
    ensures position >= |leaves| ==> branch == []
    ensures position < |leaves| ==> branch == Branch(leaves, position)
  {
    hide Level, Branch;
    if position >= |leaves| {
      return [];
    }
    branch := [];
    var at: nat, level := position, leaves;
    while |level| > 1
      invariant at < |level|
      invariant branch + Branch(level, at) == Branch(leaves, position)
      decreases |level|
    {
      LevelEvened(level);
      BranchNext(level, at);
      if |level| % 2 == 1 {
        level := level + [level[|level| - 1]];
      }
      branch := branch + [level[if at % 2 == 0 then at + 1 else at - 1]];
      level := MerkleHash(level);
      at := at / 2;
    }
    BranchTop(level);
  }

  /** A branch of the tree's own depth proves the digest at its position, and no other. */
  lemma {:induction false} BranchProves<T>(s: seq<Digest<T>>, position: nat, digest: Digest<T>,
                                           branch: seq<Digest<T>>)
    requires position < |s| && |branch| == |Branch(s, position)|
    ensures BranchRoot(digest, position, branch) == Root(s) <==>
            digest == s[position] && branch == Branch(s, position)
    decreases |s|
  {
    hide Level, Branch;
    if |s| == 1 {
      BranchTop(s);
    } else {
      BranchNext(s, position);
      var parent := if position % 2 == 0 then Pair(digest, branch[0]) else Pair(branch[0], digest);
      BranchProves(Level(s), position / 2, parent, branch[1..]);
      assert branch == [branch[0]] + branch[1..];
      LevelNode(s, position / 2);
    }
  }
}
