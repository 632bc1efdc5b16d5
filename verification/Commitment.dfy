/** What the checks of a block make of its commitment: a checked block is not malleated, so that its
    merkle root commits to its transactions alone. The id of a transaction is the transaction. */
module Commitment {
  import opened Common
  import opened Merkle
  import opened Ledger

  lemma {:induction false} PaddedAt<A>(s: seq<A>, width: nat, k: nat)
    requires IsPower2(width) && k < |s| <= width
    ensures Padded(s, width)[k] == s[k]
    decreases width
  {
    var half := width / 2;
    if width > 1 {
      if |s| <= half {
        PaddedAt(s, half, k);
      } else if k >= half {
        PaddedAt(s[half..], half, k - half);
      }
    }
  }

  lemma {:induction false} MalleatedCount<T>(ids: seq<T>, width: nat)
    requires MalleatedAt(ids, width)
    ensures |ids| > 0 && IsPower2(width)
    ensures var count := CeilingedDivide(|ids|, width); count > 2 && count % 2 == 0
  {
    hide LevelAt, Count, CeilingedDivide;
    CeilingedIsCount(|ids|, width);
    CountAt(Leaves(ids), width);
  }

  lemma {:induction false} PriorIndex(count: nat, width: nat)
    requires count > 2 && width > 0
    ensures (count - 1) * width - width >= 1
  {
    assert (count - 1) * width == (count - 3) * width + 2 * width;
  }

  /** Where the last node of a level begins. */
  function LastAt(size: nat, width: nat): int
    requires width > 0
  {
    (CeilingedDivide(size, width) - 1) * width
  }

  /** A malleated list repeats, under its last node, ids past its first. */
  lemma {:induction false} MalleatedRepeats<T>(ids: seq<T>, width: nat)
    requires MalleatedAt(ids, width)
    ensures width > 0 && 1 <= LastAt(|ids|, width) - width && LastAt(|ids|, width) < |ids|
    ensures forall i :: LastAt(|ids|, width) <= i < |ids| ==> ids[i] == ids[i - width]
  {
    hide MalleatedAt, LevelAt, Padded, Leaves, Count, CeilingedDivide;
    MalleatedCount(ids, width);
    LastNodes(ids, width);
    PriorIndex(CeilingedDivide(|ids|, width), width);
    var at := LastAt(|ids|, width);
    var last, prior := Leaves(ids)[at..], Leaves(ids)[at - width..at];
    forall i | at <= i < |ids|
      ensures ids[i] == ids[i - width]
    {
      PaddedAt(last, width, i - at);
      assert last[i - at] == Leaf(ids[i]) && prior[i - at] == Leaf(ids[i - width]);
    }
  }

  /** A repeated transaction spends its points twice, unless it has none. */
  lemma {:induction false} RepeatSpends(txs: seq<Transaction>, i: nat, j: nat)
    requires i < j < |txs| && txs[i] == txs[j] && txs[i].inputs != []
    ensures !Distinct(BlockPoints(txs))
  {
    hide BlockPoints, Distinct;
    if Distinct(BlockPoints(txs)) {
      BlockPointsPrefix(txs, j);
      DistinctPrefix(BlockPoints(txs), BlockPoints(txs[..j]));
      OwnPoints(txs[..j], i);
      assert txs[..j][i].inputs[0].point in BlockPoints(txs[..j]) && txs[..j][i] == txs[j];
      OwnPoints(txs, j);
    }
  }

  lemma {:induction false} PointsWithout(txs: seq<Transaction>, count: nat)
    requires count <= |txs| && forall i :: count <= i < |txs| ==> txs[i].inputs == []
    ensures BlockPoints(txs) == BlockPoints(txs[..count])
    decreases |txs| - count
  {
    if count == |txs| {
      assert txs[..count] == txs;
    } else {
      PointsWithout(txs, count + 1);
      BlockPointsNext(txs, count);
      hide BlockPoints;
    }
  }

  /** A malleated block spends a point twice if and only if it does so without the transactions that
      malleation repeats, or one of these has an input. */
  lemma {:induction false} MalleatedSpends(txs: seq<Transaction>, width: nat)
    requires MalleatedAt(txs, width)
    ensures width > 0 && 1 <= LastAt(|txs|, width) < |txs|
    ensures var last := LastAt(|txs|, width);
      !Distinct(BlockPoints(txs[1..])) <==>
      !Distinct(BlockPoints(txs[1..last])) || exists i :: last <= i < |txs| && txs[i].inputs != []
  {
    MalleatedRepeats(txs, width);
    hide MalleatedAt, BlockPoints, Distinct, LastAt;
    var last, rest := LastAt(|txs|, width), txs[1..];
    assert rest[..last - 1] == txs[1..last];
    if i :| last <= i < |txs| && txs[i].inputs != [] {
      RepeatSpends(rest, i - width - 1, i - 1);
    } else {
      PointsWithout(rest, last - 1);
    }
  }

  /** Transactions without inputs are repeated without spending a point twice. */
  lemma {:induction false} MalleatedWithoutInputs(first: Transaction, second: Transaction)
    requires second.inputs == []
    ensures var txs := [first, second, second, second];
      MalleatedAt(txs, 1) && Distinct(BlockPoints(txs[1..]))
  {
    var txs := [first, second, second, second];
    var rest := txs[1..];
    PointsWithout(rest, 0);
    assert rest[..0] == [];
    LastNodes(txs, 1);
    assert Leaves(txs)[3..] == Leaves(txs)[2..3];
  }

  /** No checked block is malleated, at any width. */
  lemma {:induction false} CheckedNotMalleated(txs: seq<Transaction>, width: nat)
    requires Checked(txs)
    ensures !MalleatedAt(txs, width)
  {
    hide MalleatedAt, BlockPoints, HasForwardReference;
    if MalleatedAt(txs, width) {
      assert |txs| > 0 && CheckTransaction(txs[|txs| - 1]);
      MalleatedSpends(txs, width);
    }
  }

  /** Checked blocks with one merkle root have the same transactions. */
  lemma {:induction false} CheckedCommits(s: seq<Transaction>, t: seq<Transaction>)
    requires Checked(s) && Checked(t) && Root(Leaves(s)) == Root(Leaves(t))
    ensures s == t
  {
    CheckedNonEmpty(s);
    CheckedNonEmpty(t);
    hide MalleatedAt, Checked, Root;
    forall width
      ensures !MalleatedAt(s, width) && !MalleatedAt(t, width)
    {
      CheckedNotMalleated(s, width);
      CheckedNotMalleated(t, width);
    }
    IdentityUnique(s, t);
  }
}
