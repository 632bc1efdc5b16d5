/** Money: block and transaction validation over the set of unspent outputs.

    A transaction id is modelled by the transaction itself (`TxHash(tx)`): hashing is
    injective, and since datatype values are well founded no transaction spends itself.
    `salt` stands for the hashed fields that carry no value (version, scripts, locktime).
 */
module Ledger {
  import opened Common
  import opened Words

  datatype Hash = NullHash | TxHash(tx: Transaction)

  datatype Point = Point(hash: Hash, index: nat) {
    predicate IsNull() {
      hash.NullHash? && index == MAX_UINT32
    }
  }

  /** `locked` is the verdict of is_internally_locked on the input's sequence. */
  datatype Input = Input(point: Point, locked: bool)

  datatype Transaction = Transaction(salt: nat, inputs: seq<Input>, outputs: seq<uint64>) {
    predicate IsCoinbase() {
      |inputs| == 1 && inputs[0].point.IsNull()
    }
  }

  type Outputs = map<Point, uint64>

  datatype Code =
    | Success
    | EmptyBlock
    | BlockSizeLimit
    | FirstNotCoinbase
    | ExtraCoinbases
    | ForwardReference
    | InternalDoubleSpend
    | InvalidTransactionCommitment
    | EmptyTransaction
    | InvalidCoinbaseScriptSize
    | PreviousOutputNull
    | CoinbaseMaturity
    | RelativeTimeLocked
    | CoinbaseValueLimit
    | BlockSigopLimit
    | MissingPreviousOutput
    | SpendExceedsValue

  /** No output of a transaction can be referenced from within its own id. */
  lemma {:induction false} NoSelfReference(tx: Transaction, i: nat)
    requires i < |tx.inputs|
    ensures tx.inputs[i].point.hash != TxHash(tx)
  {
    var hash := tx.inputs[i].point.hash;
    if hash.TxHash? {
      assert hash.tx < tx by {
        assert tx.inputs[i] in tx.inputs;
      }
    }
  }

  // ---- Saturating sums ----

  ghost function Sum(values: seq<uint64>): nat {
    if |values| == 0 then 0 else Sum(values[..|values| - 1]) + values[|values| - 1]
  }

  function CeilingedSum(values: seq<uint64>): (total: uint64)
    ensures total == if Sum(values) > MAX_UINT64 then MAX_UINT64 else Sum(values)
  {
    if |values| == 0 then 0
    else CeilingedAdd(CeilingedSum(values[..|values| - 1]), values[|values| - 1])
  }

  /** The value of each input's prevout, zero if it is missing. */
  function InputValues(inputs: seq<Input>, prevouts: Outputs): (r: seq<uint64>)
    ensures |r| == |inputs|
  {
    if |inputs| == 0 then []
    else
      var point := inputs[|inputs| - 1].point;
      InputValues(inputs[..|inputs| - 1], prevouts) + [if point in prevouts then prevouts[point] else 0]
  }

  function Value(tx: Transaction, prevouts: Outputs): uint64 {
    CeilingedSum(InputValues(tx.inputs, prevouts))
  }

  function Spend(tx: Transaction): uint64 {
    CeilingedSum(tx.outputs)
  }

  function Fee(tx: Transaction, prevouts: Outputs): uint64 {
    FlooredSubtract(Value(tx, prevouts), Spend(tx))
  }

  function FeeList(txs: seq<Transaction>, prevouts: Outputs): seq<uint64> {
    if |txs| == 0 then []
    else FeeList(txs[..|txs| - 1], prevouts) + [Fee(txs[|txs| - 1], prevouts)]
  }

  function Fees(txs: seq<Transaction>, prevouts: Outputs): uint64 {
    CeilingedSum(FeeList(txs, prevouts))
  }

  // ---- Points and outputs of transactions ----

  function Points(inputs: seq<Input>): (r: seq<Point>)
    ensures |r| == |inputs| && forall i :: 0 <= i < |inputs| ==> r[i] == inputs[i].point
  {
    seq(|inputs|, i requires 0 <= i < |inputs| => inputs[i].point)
  }

  function BlockPoints(txs: seq<Transaction>): seq<Point> {
    if |txs| == 0 then []
    else BlockPoints(txs[..|txs| - 1]) + Points(txs[|txs| - 1].inputs)
  }

  /** The first count outputs of a transaction, keyed by point. */
  function OutputMap(tx: Transaction, count: nat): Outputs
    requires count <= |tx.outputs|
  {
    if count == 0 then map[]
    else OutputMap(tx, count - 1)[Point(TxHash(tx), count - 1) := tx.outputs[count - 1]]
  }

  /** The outputs of all transactions, keyed by point. */
  function BlockOutputs(txs: seq<Transaction>): Outputs {
    if |txs| == 0 then map[]
    else
      var tx := txs[|txs| - 1];
      BlockOutputs(txs[..|txs| - 1]) + OutputMap(tx, |tx.outputs|)
  }

  lemma {:induction false} OutputAt(tx: Transaction, count: nat, p: Point)
    requires count <= |tx.outputs|
    ensures p in OutputMap(tx, count) <==> p.hash == TxHash(tx) && p.index < count
    ensures p in OutputMap(tx, count) ==> OutputMap(tx, count)[p] == tx.outputs[p.index]
  {
    if count > 0 {
      OutputAt(tx, count - 1, p);
    }
  }

  lemma {:induction false} BlockOutputAt(txs: seq<Transaction>, p: Point)
    ensures p in BlockOutputs(txs) <==> p.hash.TxHash? && p.hash.tx in txs && p.index < |p.hash.tx.outputs|
    ensures p in BlockOutputs(txs) ==> BlockOutputs(txs)[p] == p.hash.tx.outputs[p.index]
  {
    if |txs| > 0 {
      var tx := txs[|txs| - 1];
      assert txs == txs[..|txs| - 1] + [tx];
      BlockOutputAt(txs[..|txs| - 1], p);
      OutputAt(tx, |tx.outputs|, p);
    }
  }

  // ---- Check (context free) ----

  /** A transaction, past the given position, spends a later transaction of the block. */
  ghost predicate HasForwardReference(txs: seq<Transaction>, from: nat) {
    exists i, j, k :: from <= i < j < |txs| && 0 <= k < |txs[i].inputs| &&
      txs[i].inputs[k].point.hash == TxHash(txs[j])
  }

  method IsForwardReference(txs: seq<Transaction>, coinbase: bool) returns (forward: bool)
    ensures forward <==> HasForwardReference(txs, if coinbase then 1 else 0)
  {
    if |txs| == 0 {
      return false;
    }
    var end: nat := if coinbase then 1 else 0;
    var hashes: set<Transaction> := {};
    var at := |txs|;
    while at > end
      invariant end <= at <= |txs|
      invariant hashes == set j | at <= j < |txs| :: txs[j]
      invariant !HasForwardReference(txs, at)
    {
      at := at - 1;
      var inputs := txs[at].inputs;
      for k := 0 to |inputs|
        invariant forall n :: 0 <= n < k ==>
          !(inputs[n].point.hash.TxHash? && inputs[n].point.hash.tx in hashes)
      {
        var hash := inputs[k].point.hash;
        if hash.TxHash? && hash.tx in hashes {
          var j :| at < j < |txs| && txs[j] == hash.tx;
          assert txs[at].inputs[k].point.hash == TxHash(txs[j]);
          return true;
        }
      }
      hashes := hashes + {txs[at]};
    }
    return false;
  }

  method IsInternalDoubleSpend(txs: seq<Transaction>, coinbase: bool) returns (spent: bool)
    ensures spent <==> !Distinct(BlockPoints(if coinbase && |txs| > 0 then txs[1..] else txs))
  {
    hide BlockPoints, Points;
    BlockPointsNone();
    if |txs| == 0 {
      return false;
    }
    var rest := if coinbase then txs[1..] else txs;
    ghost var all := BlockPoints(rest);
    var points: set<Point> := {};
    for t := 0 to |rest|
      invariant points == set p | p in BlockPoints(rest[..t])
      invariant Distinct(BlockPoints(rest[..t]))
    {
      var inputs := rest[t].inputs;
      ghost var before := BlockPoints(rest[..t]);
      ghost var own := Points(inputs);
      BlockPointsPrefix(rest, t + 1);
      BlockPointsNext(rest, t);
      for k := 0 to |inputs|
        invariant points == set p | p in before + own[..k]
        invariant Distinct(before + own[..k])
      {
        assert before + own[..k + 1] == (before + own[..k]) + [own[k]];
        if inputs[k].point in points {
          assert before + own[..k + 1] <= all;
          ghost var n :| 0 <= n < |before + own[..k]| && (before + own[..k])[n] == own[k];
          assert all[n] == all[|before| + k];
          return true;
        }
        points := points + {inputs[k].point};
      }
      assert own[..|inputs|] == own;
    }
    assert rest[..|rest|] == rest;
    return false;
  }

  lemma {:induction false} BlockPointsNone()
    ensures BlockPoints([]) == []
  {
  }

  lemma {:induction false} BlockPointsNext(txs: seq<Transaction>, count: nat)
    requires count < |txs|
    ensures BlockPoints(txs[..count + 1]) == BlockPoints(txs[..count]) + Points(txs[count].inputs)
  {
    assert txs[..count + 1][..count] == txs[..count];
  }

  lemma {:induction false} BlockPointsPrefix(txs: seq<Transaction>, count: nat)
    requires count <= |txs|
    ensures BlockPoints(txs[..count]) <= BlockPoints(txs)
    decreases |txs| - count
  {
    if count < |txs| {
      BlockPointsPrefix(txs, count + 1);
      BlockPointsNext(txs, count);
    } else {
      assert txs[..count] == txs;
    }
  }

  predicate CheckTransaction(tx: Transaction) {
    |tx.inputs| > 0 && |tx.outputs| > 0 &&
    (!tx.IsCoinbase() ==> forall k :: 0 <= k < |tx.inputs| ==> !tx.inputs[k].point.IsNull())
  }

  /** What a checked block satisfies. */
  ghost predicate Checked(txs: seq<Transaction>) {
    && |txs| > 0 && txs[0].IsCoinbase()
    && (forall i :: 1 <= i < |txs| ==> !txs[i].IsCoinbase())
    && !HasForwardReference(txs, 1)
    && Distinct(BlockPoints(txs[1..]))
    && (forall i :: 0 <= i < |txs| ==> CheckTransaction(txs[i]))
  }

  /** Verdicts on a block that do not depend on its money: whether it is oversized, malleated, has
      another merkle root (if identity is checked), a coinbase script of invalid size, and too many
      signature operations. */
  datatype Verdicts = Verdicts(oversized: bool, malleated: bool, otherRoot: bool, coinbaseSize: bool,
                               sigopsLimited: bool)

  ghost function MalleatedOr(v: Verdicts, ec: Code): Code {
    if v.malleated then InvalidTransactionCommitment else ec
  }

  /** The first failure of the check of a transaction. */
  ghost function TransactionCode(tx: Transaction, v: Verdicts): Code {
    if tx.inputs == [] || tx.outputs == [] then EmptyTransaction
    else if IsIssue(tx) then (if v.coinbaseSize then InvalidCoinbaseScriptSize else Success)
    else if SpendsSome(tx.inputs) then Success
    else PreviousOutputNull
  }

  /** The code of the first transaction that fails, if any does. */
  ghost predicate FirstFailure(txs: seq<Transaction>, v: Verdicts, ec: Code) {
    if ec == Success then forall i :: 0 <= i < |txs| ==> TransactionCode(txs[i], v) == Success
    else exists i :: FailsFirst(txs, v, i) && TransactionCode(txs[i], v) == ec
  }

  ghost predicate FailsFirst(txs: seq<Transaction>, v: Verdicts, i: int) {
    && 0 <= i < |txs| && TransactionCode(txs[i], v) != Success
    && forall n :: 0 <= n < i ==> TransactionCode(txs[n], v) == Success
  }

  /** The first failure of the check of a block. */
  ghost predicate IsVerdict(txs: seq<Transaction>, v: Verdicts, ec: Code) {
    if |txs| == 0 then ec == EmptyBlock
    else if v.oversized then ec == BlockSizeLimit
    else if !IsIssue(txs[0]) then ec == MalleatedOr(v, FirstNotCoinbase)
    else if exists i :: 1 <= i < |txs| && IsIssue(txs[i]) then ec == ExtraCoinbases
    else if HasForwardReference(txs, 1) then ec == ForwardReference
    else if !SpendOnce(txs[1..]) then ec == MalleatedOr(v, InternalDoubleSpend)
    else if v.otherRoot then ec == InvalidTransactionCommitment
    else FirstFailure(txs, v, ec)
  }

  method Check(txs: seq<Transaction>, v: Verdicts) returns (ec: Code)
    ensures ec == Success <==> CheckedParts(txs) && !v.oversized && !v.otherRoot && !v.coinbaseSize
    ensures IsVerdict(txs, v, ec)
  {
    hide BlockPoints, Distinct, SpendOnce, HasForwardReference, CheckTransaction, SpendsSome, CheckedParts;
    CheckedIff(txs);
    if |txs| == 0 {
      return EmptyBlock;
    }
    SpendOnceIff(txs[1..]);
    if v.oversized {
      return BlockSizeLimit;
    }
    if !txs[0].IsCoinbase() {
      return if v.malleated then InvalidTransactionCommitment else FirstNotCoinbase;
    }
    for i := 1 to |txs|
      invariant forall n :: 1 <= n < i ==> !txs[n].IsCoinbase()
    {
      if txs[i].IsCoinbase() {
        return ExtraCoinbases;
      }
    }
    var forward := IsForwardReference(txs, true);
    if forward {
      return ForwardReference;
    }
    var spent := IsInternalDoubleSpend(txs, true);
    if spent {
      return if v.malleated then InvalidTransactionCommitment else InternalDoubleSpend;
    }
    if v.otherRoot {
      return InvalidTransactionCommitment;
    }
    for i := 0 to |txs|
      invariant forall n :: 0 <= n < i ==> CheckTransaction(txs[n]) && TransactionCode(txs[n], v) == Success
      invariant i > 0 ==> !v.coinbaseSize
    {
      TransactionChecked(txs[i]);
      if |txs[i].inputs| == 0 || |txs[i].outputs| == 0 {
        ec := EmptyTransaction;
      } else if txs[i].IsCoinbase() && v.coinbaseSize {
        ec := InvalidCoinbaseScriptSize;
      } else if !CheckTransaction(txs[i]) {
        ec := PreviousOutputNull;
      } else {
        ec := Success;
      }
      if ec != Success {
        assert FailsFirst(txs, v, i);
        return;
      }
    }
    return Success;
  }

  // ---- Populate ----

  /** An input that may not spend the output of the block that it refers to. */
  predicate Premature(txs: seq<Transaction>, input: Input, bip68: bool)
    requires |txs| > 0
  {
    input.point in BlockOutputs(txs) &&
    (input.point.hash == TxHash(txs[0]) || (bip68 && input.locked))
  }

  /** What a populated block satisfies. */
  ghost predicate Populated(txs: seq<Transaction>, bip68: bool) {
    forall i :: 1 <= i < |txs| ==> Ready(txs, txs[i].inputs, bip68)
  }

  ghost predicate Ready(txs: seq<Transaction>, inputs: seq<Input>, bip68: bool)
    requires |txs| > 0
  {
    forall k :: 0 <= k < |inputs| ==> !Premature(txs, inputs[k], bip68)
  }

  /** What each failure tells of an input. */
  ghost predicate InputFails(txs: seq<Transaction>, input: Input, bip68: bool, ec: Code)
    requires |txs| > 0
  {
    && input.point in BlockOutputs(txs)
    && if input.point.hash == TxHash(txs[0]) then ec == CoinbaseMaturity
       else bip68 && input.locked && ec == RelativeTimeLocked
  }

  ghost predicate InputsFail(txs: seq<Transaction>, inputs: seq<Input>, bip68: bool, ec: Code)
    requires |txs| > 0
  {
    exists k :: 0 <= k < |inputs| && InputFails(txs, inputs[k], bip68, ec)
  }

  /** Prevouts start as the unspent outputs, and are replaced by those of the block. */
  method Populate(txs: seq<Transaction>, unspent: Outputs, bip68: bool)
    returns (ec: Code, prevouts: Outputs)
    ensures ec == Success <==> Populated(txs, bip68)
    ensures ec != Success ==> exists i :: 1 <= i < |txs| && InputsFail(txs, txs[i].inputs, bip68, ec)
    ensures ec == Success && |txs| > 0 ==> Overlaid(prevouts, unspent, BlockOutputs(txs), BlockPoints(txs[1..]))
  {
    prevouts := unspent;
    if |txs| == 0 {
      return Success, prevouts;
    }
    hide BlockOutputs, Overlaid, Ready, BlockPoints, InputsFail;
    BlockPointsNone();
    ghost var rest := txs[1..];
    OverlaidNone(unspent, BlockOutputs(txs));
    for i := 1 to |txs|
      invariant forall n :: 1 <= n < i ==> Ready(txs, txs[n].inputs, bip68)
      invariant Overlaid(prevouts, unspent, BlockOutputs(txs), BlockPoints(rest[..i - 1]))
    {
      BlockPointsNext(rest, i - 1);
      ec, prevouts := PopulateInputs(txs, txs[i].inputs, unspent, prevouts, BlockPoints(rest[..i - 1]), bip68);
      if ec != Success {
        return;
      }
    }
    assert rest[..|txs| - 1] == rest;
    ec := Success;
  }

  method PopulateInputs(txs: seq<Transaction>, inputs: seq<Input>, ghost unspent: Outputs, populated: Outputs,
                        ghost searched: seq<Point>, bip68: bool)
    returns (ec: Code, prevouts: Outputs)
    requires |txs| > 0 && Overlaid(populated, unspent, BlockOutputs(txs), searched)
    ensures ec == Success <==> Ready(txs, inputs, bip68)
    ensures ec != Success ==> InputsFail(txs, inputs, bip68, ec)
    ensures ec == Success ==> Overlaid(prevouts, unspent, BlockOutputs(txs), searched + Points(inputs))
  {
    hide BlockOutputs;
    var points := BlockOutputs(txs);
    prevouts := populated;
    ghost var own := Points(inputs);
    for k := 0 to |inputs|
      invariant forall n :: 0 <= n < k ==> !Premature(txs, inputs[n], bip68)
      invariant Overlaid(prevouts, unspent, points, searched + own[..k])
    {
      var input := inputs[k];
      assert searched + own[..k + 1] == (searched + own[..k]) + [input.point];
      if input.point in points {
        if input.point.hash == TxHash(txs[0]) {
          assert InputFails(txs, inputs[k], bip68, CoinbaseMaturity);
          return CoinbaseMaturity, prevouts;
        }
        if bip68 && input.locked {
          assert InputFails(txs, inputs[k], bip68, RelativeTimeLocked);
          return RelativeTimeLocked, prevouts;
        }
        prevouts := prevouts[input.point := points[input.point]];
      }
    }
    assert own[..|inputs|] == own;
    ec := Success;
  }

  lemma {:induction false} OverlaidNone(unspent: Outputs, points: Outputs)
    ensures Overlaid(unspent, unspent, points, [])
  {
  }

  /** The prevouts once the given points have been searched for in the block. */
  ghost predicate Overlaid(prevouts: Outputs, unspent: Outputs, points: Outputs, searched: seq<Point>) {
    forall p :: (p in searched && p in points ==> p in prevouts && prevouts[p] == points[p]) &&
                (!(p in searched && p in points) ==>
                   (p in prevouts <==> p in unspent) && (p in unspent ==> prevouts[p] == unspent[p]))
  }

  // ---- Subsidy ----

  /** A right shift, one bit at a time. */
  function Shifted(value: uint64, shift: nat): uint64 {
    if shift == 0 then value else Shifted(value / 2, shift - 1)
  }

  /** With overflow a shift by the width or more is zero, otherwise the shift is modulo the width. */
  function ShiftRight(value: uint64, shift: nat, overflow: bool): uint64 {
    if overflow && shift >= 64 then 0 else Shifted(value, shift % 64)
  }

  datatype Settings = Settings(interval: nat, initial: uint64, bip42: bool) {
    predicate Valid() {
      interval > 0
    }
  }

  function Subsidy(height: nat, c: Settings): uint64
    requires c.Valid()
  {
    ShiftRight(c.initial, height / c.interval, c.bip42)
  }

  /** The subsidy of one interval and of all its halvings. */
  function Halvings(subsidy: nat): nat {
    if subsidy == 0 then 0 else subsidy + Halvings(subsidy / 2)
  }

  function MaxMoney(c: Settings): nat {
    Halvings(c.initial) * c.interval
  }

  /** The sum of the subsidies of all heights below the given one. */
  ghost function Issued(height: nat, c: Settings): nat
    requires c.Valid()
  {
    if height == 0 then 0 else Issued(height - 1, c) + Subsidy(height - 1, c)
  }

  // ---- Accept ----

  /** What an accepted block satisfies. */
  ghost predicate Accepted(txs: seq<Transaction>, prevouts: Outputs, height: nat, c: Settings)
    requires c.Valid()
  {
    && (|txs| > 0 ==> Spend(txs[0]) <= CeilingedAdd(Fees(txs, prevouts), Subsidy(height, c)))
    && (forall i :: 1 <= i < |txs| ==> AcceptTransaction(txs[i], prevouts) == Success)
  }

  function AcceptTransaction(tx: Transaction, prevouts: Outputs): (ec: Code)
    ensures ec != CoinbaseValueLimit && ec != BlockSigopLimit
  {
    if tx.IsCoinbase() then Success
    else if exists k :: 0 <= k < |tx.inputs| && tx.inputs[k].point !in prevouts then MissingPreviousOutput
    else if Spend(tx) > Value(tx, prevouts) then SpendExceedsValue
    else Success
  }

  // ---- The same in sums ----

  /** What the largest word leaves of a number. */
  ghost function Capped(n: nat): nat {
    if n > 0xffff_ffff_ffff_ffff then 0xffff_ffff_ffff_ffff else n
  }

  /** A transaction whose one input spends nothing. */
  ghost predicate IsIssue(tx: Transaction) {
    |tx.inputs| == 1 && tx.inputs[0].point == Point(NullHash, 0xffff_ffff)
  }

  /** The values of the outputs that inputs spend, zero for a missing one. */
  ghost function Spent(inputs: seq<Input>, prevouts: Outputs): (r: seq<uint64>)
    ensures |r| == |inputs|
  {
    seq(|inputs|, k requires 0 <= k < |inputs| =>
      if inputs[k].point in prevouts then prevouts[inputs[k].point] else 0)
  }

  ghost predicate Misses(tx: Transaction, prevouts: Outputs) {
    exists k :: 0 <= k < |tx.inputs| && tx.inputs[k].point !in prevouts
  }

  ghost predicate Overspends(tx: Transaction, prevouts: Outputs) {
    Capped(Sum(tx.outputs)) > Capped(Sum(Spent(tx.inputs, prevouts)))
  }

  /** What each transaction spends less than its inputs hold. */
  ghost function Remainders(txs: seq<Transaction>, prevouts: Outputs): (r: seq<uint64>)
    ensures |r| == |txs|
  {
    seq(|txs|, i requires 0 <= i < |txs| =>
      if Overspends(txs[i], prevouts) then 0
      else Capped(Sum(Spent(txs[i].inputs, prevouts))) - Capped(Sum(txs[i].outputs)))
  }

  /** The initial subsidy halved once an interval, or without bip42 with the count of halvings reduced
      to the width of a word. */
  ghost function Halved(height: nat, c: Settings): nat
    requires c.Valid()
  {
    hide Pow2;
    var halves := height / c.interval;
    c.initial / Pow2(if c.bip42 then halves else halves % 64)
  }

  /** What the coinbase may claim. */
  ghost function Reward(txs: seq<Transaction>, prevouts: Outputs, height: nat, c: Settings): nat
    requires c.Valid()
  {
    Capped(Capped(Sum(Remainders(txs, prevouts))) + Halved(height, c))
  }

  /** What either failure tells of a transaction. */
  ghost predicate FailsBy(tx: Transaction, prevouts: Outputs, ec: Code) {
    && !IsIssue(tx)
    && if Misses(tx, prevouts) then ec == MissingPreviousOutput
       else Overspends(tx, prevouts) && ec == SpendExceedsValue
  }

  /** What an accepted block satisfies, in sums. */
  ghost predicate AcceptedSums(txs: seq<Transaction>, prevouts: Outputs, height: nat, c: Settings)
    requires c.Valid()
  {
    && (|txs| > 0 ==> Capped(Sum(txs[0].outputs)) <= Reward(txs, prevouts, height, c))
    && (forall i :: 1 <= i < |txs| ==>
          IsIssue(txs[i]) || (!Misses(txs[i], prevouts) && !Overspends(txs[i], prevouts)))
  }

  lemma {:induction false} SpentIs(inputs: seq<Input>, prevouts: Outputs)
    ensures InputValues(inputs, prevouts) == Spent(inputs, prevouts)
  {
    if |inputs| > 0 {
      var front := inputs[..|inputs| - 1];
      SpentIs(front, prevouts);
      assert Spent(inputs, prevouts) == Spent(front, prevouts) + [Spent(inputs, prevouts)[|inputs| - 1]];
    }
  }

  lemma {:induction false} ValuesAre(tx: Transaction, prevouts: Outputs)
    ensures Value(tx, prevouts) == Capped(Sum(Spent(tx.inputs, prevouts))) && Spend(tx) == Capped(Sum(tx.outputs))
    ensures Fee(tx, prevouts) == if Overspends(tx, prevouts) then 0 else Value(tx, prevouts) - Spend(tx)
  {
    SpentIs(tx.inputs, prevouts);
    hide Sum, Spent, InputValues;
  }

  /** Exactly when a transaction is accepted, and when it fails for either cause. */
  lemma {:induction false} AcceptIff(tx: Transaction, prevouts: Outputs)
    ensures var ec := AcceptTransaction(tx, prevouts);
      && (ec == Success <==> IsIssue(tx) || (!Misses(tx, prevouts) && !Overspends(tx, prevouts)))
      && (ec == MissingPreviousOutput <==> !IsIssue(tx) && Misses(tx, prevouts))
      && (ec == SpendExceedsValue <==> !IsIssue(tx) && !Misses(tx, prevouts) && Overspends(tx, prevouts))
  {
    ValuesAre(tx, prevouts);
    hide Spend, Value, Sum, Spent;
  }

  lemma {:induction false} RemaindersAre(txs: seq<Transaction>, prevouts: Outputs)
    ensures FeeList(txs, prevouts) == Remainders(txs, prevouts)
  {
    hide Fee, Overspends, Spent, Sum;
    if |txs| > 0 {
      var front, last := txs[..|txs| - 1], txs[|txs| - 1];
      RemaindersAre(front, prevouts);
      ValuesAre(last, prevouts);
      assert Remainders(txs, prevouts) == Remainders(front, prevouts) + [Remainders(txs, prevouts)[|txs| - 1]];
    }
  }

  lemma {:induction false} ShiftedIs(value: uint64, shift: nat)
    ensures Shifted(value, shift) == value / Pow2(shift)
  {
    if shift > 0 {
      ShiftedIs(value / 2, shift - 1);
      DivDiv(value, 2, Pow2(shift - 1));
    }
  }

  lemma {:induction false} SubsidyIs(height: nat, c: Settings)
    requires c.Valid()
    ensures Subsidy(height, c) == Halved(height, c)
  {
    hide Shifted, Pow2;
    var halves := height / c.interval;
    if c.bip42 {
      SubsidyShifts(height, c);
      ShiftedIs(c.initial, halves);
    } else {
      ShiftedIs(c.initial, halves % 64);
    }
  }

  lemma {:induction false} RewardIs(txs: seq<Transaction>, prevouts: Outputs, height: nat, c: Settings)
    requires c.Valid()
    ensures CeilingedAdd(Fees(txs, prevouts), Subsidy(height, c)) == Reward(txs, prevouts, height, c)
  {
    RemaindersAre(txs, prevouts);
    SubsidyIs(height, c);
    hide Remainders, FeeList, Sum, Subsidy, Halved;
  }

  lemma {:induction false} AcceptedIff(txs: seq<Transaction>, prevouts: Outputs, height: nat, c: Settings)
    requires c.Valid()
    ensures Accepted(txs, prevouts, height, c) <==> AcceptedSums(txs, prevouts, height, c)
  {
    hide AcceptTransaction, Overspends, Misses, IsIssue, Fees, Subsidy, Reward, Spend;
    RewardIs(txs, prevouts, height, c);
    if |txs| > 0 {
      ValuesAre(txs[0], prevouts);
    }
    forall i | 1 <= i < |txs|
      ensures AcceptTransaction(txs[i], prevouts) == Success <==>
              IsIssue(txs[i]) || (!Misses(txs[i], prevouts) && !Overspends(txs[i], prevouts))
    {
      AcceptIff(txs[i], prevouts);
    }
  }

  method Accept(txs: seq<Transaction>, v: Verdicts, prevouts: Outputs, height: nat, c: Settings) returns (ec: Code)
    requires c.Valid()
    ensures ec == Success <==> AcceptedSums(txs, prevouts, height, c) && !v.sigopsLimited
    ensures ec == CoinbaseValueLimit <==>
            |txs| > 0 && Capped(Sum(txs[0].outputs)) > Reward(txs, prevouts, height, c)
    ensures ec == BlockSigopLimit <==> v.sigopsLimited && ec != CoinbaseValueLimit
    ensures ec != Success && ec != CoinbaseValueLimit && ec != BlockSigopLimit ==>
              exists i :: 1 <= i < |txs| && FailsBy(txs[i], prevouts, ec)
  {
    hide Spend, Fees, Subsidy, AcceptTransaction, Overspends, Misses, IsIssue, Sum, Reward, AcceptedSums;
    AcceptedIff(txs, prevouts, height, c);
    RewardIs(txs, prevouts, height, c);
    if |txs| > 0 {
      ValuesAre(txs[0], prevouts);
    }
    var claim := if |txs| == 0 then 0 else Spend(txs[0]);
    var reward := CeilingedAdd(Fees(txs, prevouts), Subsidy(height, c));
    if claim > reward {
      return CoinbaseValueLimit;
    }
    if v.sigopsLimited {
      return BlockSigopLimit;
    }
    if |txs| == 0 {
      return Success;
    }
    for i := 1 to |txs|
      invariant forall n :: 1 <= n < i ==> AcceptTransaction(txs[n], prevouts) == Success
    {
      ec := AcceptTransaction(txs[i], prevouts);
      AcceptIff(txs[i], prevouts);
      if ec != Success {
        return;
      }
    }
    return Success;
  }

  // ---- Totals ----

  ghost function Total(m: Outputs): nat {
    if m == map[] then 0
    else
      var p :| p in m;
      m[p] + Total(m - {p})
  }

  lemma {:induction false} TotalSplit(m: Outputs, p: Point)
    requires p in m
    ensures Total(m) == m[p] + Total(m - {p})
    decreases |m|
  {
    var q :| q in m && Total(m) == m[q] + Total(m - {q});
    if q != p {
      TotalSplit(m - {q}, p);
      TotalSplit(m - {p}, q);
      assert m - {q} - {p} == m - {p} - {q};
    }
  }

  lemma {:induction false} TotalUpdate(m: Outputs, p: Point, value: uint64)
    ensures Total(m[p := value]) <= Total(m) + value
  {
    TotalSplit(m[p := value], p);
    assert m[p := value] - {p} == m - {p};
    if p in m {
      TotalSplit(m, p);
    } else {
      assert m - {p} == m;
    }
  }

  ghost predicate Submap(a: Outputs, b: Outputs) {
    forall p :: p in a ==> p in b && a[p] == b[p]
  }

  lemma {:induction false} TotalSubmap(a: Outputs, b: Outputs)
    requires Submap(a, b)
    ensures Total(a) <= Total(b)
    decreases |a|
  {
    if a != map[] {
      var p :| p in a;
      TotalSplit(a, p);
      TotalSplit(b, p);
      TotalSubmap(a - {p}, b - {p});
    }
  }

  /** Every input refers to an output of m, with the value of its prevout. */
  ghost predicate Backed(m: Outputs, prevouts: Outputs, inputs: seq<Input>) {
    forall k :: 0 <= k < |inputs| ==>
      inputs[k].point in m && inputs[k].point in prevouts && m[inputs[k].point] == prevouts[inputs[k].point]
  }

  /** Spending distinct points removes exactly the value of the inputs. */
  lemma {:induction false} TotalSpent(m: Outputs, prevouts: Outputs, inputs: seq<Input>)
    requires Distinct(Points(inputs))
    requires Backed(m, prevouts, inputs)
    ensures Total(m - set p | p in Points(inputs)) + Sum(InputValues(inputs, prevouts)) == Total(m)
  {
    hide Total;
    if |inputs| == 0 {
      assert m - (set p | p in Points(inputs)) == m;
    } else {
      var last := |inputs| - 1;
      var front, p := inputs[..last], inputs[last].point;
      var rest := m - set q | q in Points(front);
      SpentLast(m, inputs);
      TotalSpent(m, prevouts, front);
      TotalSplit(rest, p);
      hide Points, Distinct, Backed;
      assert InputValues(inputs, prevouts)[..last] == InputValues(front, prevouts);
    }
  }

  lemma {:induction false} SpentLast(m: Outputs, inputs: seq<Input>)
    requires |inputs| > 0 && Distinct(Points(inputs))
    ensures var front, p := inputs[..|inputs| - 1], inputs[|inputs| - 1].point;
      && Distinct(Points(front)) && p !in Points(front)
      && m - (set q | q in Points(inputs)) == m - (set q | q in Points(front)) - {p}
  {
    var last := |inputs| - 1;
    var front, p := inputs[..last], inputs[last].point;
    assert Points(inputs) == Points(front) + [p];
    hide Points;
    assert Points(inputs)[last] == p && forall k :: 0 <= k < last ==> Points(front)[k] == Points(inputs)[k];
  }

  /** Creating outputs adds at most their value (less, where they replace others). */
  lemma {:induction false} TotalCreated(m: Outputs, tx: Transaction, count: nat)
    requires count <= |tx.outputs|
    ensures Total(m + OutputMap(tx, count)) <= Total(m) + Sum(tx.outputs[..count])
  {
    if count == 0 {
      assert m + OutputMap(tx, 0) == m;
    } else {
      var p := Point(TxHash(tx), count - 1);
      TotalCreated(m, tx, count - 1);
      TotalUpdate(m + OutputMap(tx, count - 1), p, tx.outputs[count - 1]);
      assert m + OutputMap(tx, count) == (m + OutputMap(tx, count - 1))[p := tx.outputs[count - 1]];
      assert tx.outputs[..count][..count - 1] == tx.outputs[..count - 1];
    }
  }

  // ---- A checked block in its points ----

  /** Whether no point is spent twice, in one transaction or in two. */
  ghost predicate SpendOnce(txs: seq<Transaction>) {
    forall i, j, k, l :: 0 <= i <= j < |txs| && 0 <= k < |txs[i].inputs| && 0 <= l < |txs[j].inputs| ==>
      i < j || k < l ==> txs[i].inputs[k].point != txs[j].inputs[l].point
  }

  lemma {:induction false} PointOf(txs: seq<Transaction>, p: Point) returns (i: nat, k: nat)
    requires p in BlockPoints(txs)
    ensures i < |txs| && k < |txs[i].inputs| && txs[i].inputs[k].point == p
  {
    var last := |txs| - 1;
    if p in BlockPoints(txs[..last]) {
      i, k := PointOf(txs[..last], p);
    } else {
      i := last;
      k :| 0 <= k < |Points(txs[last].inputs)| && Points(txs[last].inputs)[k] == p;
    }
  }

  lemma {:induction false} SpendOnceIff(txs: seq<Transaction>)
    ensures Distinct(BlockPoints(txs)) <==> SpendOnce(txs)
  {
    if Distinct(BlockPoints(txs)) {
      DistinctSpendOnce(txs);
    }
    if SpendOnce(txs) {
      SpendOnceDistinct(txs);
    }
  }

  lemma {:induction false} DistinctSpendOnce(txs: seq<Transaction>)
    requires Distinct(BlockPoints(txs))
    ensures SpendOnce(txs)
  {
    hide BlockPoints, Distinct;
    forall i, j, k, l | 0 <= i <= j < |txs| && 0 <= k < |txs[i].inputs| && 0 <= l < |txs[j].inputs| && (i < j || k < l)
      ensures txs[i].inputs[k].point != txs[j].inputs[l].point
    {
      OwnPoints(txs, j);
      if i < j {
        BlockPointsPrefix(txs, j);
        DistinctPrefix(BlockPoints(txs), BlockPoints(txs[..j]));
        OwnPoints(txs[..j], i);
      } else {
        DistinctAt(Points(txs[j].inputs), k, l);
      }
    }
  }

  lemma {:induction false} DistinctAt<A(!new)>(s: seq<A>, i: nat, j: nat)
    requires Distinct(s) && i < j < |s|
    ensures s[i] != s[j]
  {
  }

  lemma {:induction false} DistinctPrefix<A(!new)>(s: seq<A>, prefix: seq<A>)
    requires Distinct(s) && prefix <= s
    ensures Distinct(prefix)
  {
  }

  lemma {:induction false} DistinctJoin<A(!new)>(a: seq<A>, b: seq<A>)
    requires Distinct(a) && Distinct(b) && forall x :: x in a ==> x !in b
    ensures Distinct(a + b)
  {
    forall i, j | 0 <= i < j < |a + b|
      ensures (a + b)[i] != (a + b)[j]
    {
      if i < |a| {
        assert (a + b)[i] in a;
      }
    }
  }

  lemma {:induction false} SpendOnceDistinct(txs: seq<Transaction>)
    requires SpendOnce(txs)
    ensures Distinct(BlockPoints(txs))
    decreases |txs|
  {
    if |txs| > 0 {
      var last := |txs| - 1;
      var before, own := BlockPoints(txs[..last]), Points(txs[last].inputs);
      SpendOnceDistinct(txs[..last]);
      forall p | p in before
        ensures p !in own
      {
        var i, k := PointOf(txs[..last], p);
        assert txs[i].inputs[k].point == p;
      }
      forall k, l | 0 <= k < l < |own|
        ensures own[k] != own[l]
      {
        assert txs[last].inputs[k].point != txs[last].inputs[l].point;
      }
      hide BlockPoints, SpendOnce, Points;
      DistinctJoin(before, own);
    }
  }

  /** What a checked block satisfies, in its inputs and outputs. */
  ghost predicate CheckedParts(txs: seq<Transaction>) {
    && |txs| > 0 && IsIssue(txs[0]) && SpendOnce(txs[1..])
    && (forall i :: 0 <= i < |txs| ==> txs[i].inputs != [] && txs[i].outputs != [])
    && (forall i :: 1 <= i < |txs| ==> SpendsSome(txs[i].inputs))
    && (forall i, j, k :: 1 <= i < j < |txs| && 0 <= k < |txs[i].inputs| ==>
          txs[i].inputs[k].point.hash != TxHash(txs[j]))
  }

  /** Whether every input spends an output. */
  ghost predicate SpendsSome(inputs: seq<Input>) {
    forall k :: 0 <= k < |inputs| ==> inputs[k].point != Point(NullHash, 0xffff_ffff)
  }

  lemma {:induction false} CheckedIff(txs: seq<Transaction>)
    ensures Checked(txs) <==> CheckedParts(txs)
  {
    hide BlockPoints, Distinct, SpendOnce;
    if |txs| > 0 {
      SpendOnceIff(txs[1..]);
    }
    forall i | 0 <= i < |txs|
      ensures CheckTransaction(txs[i]) <==>
              txs[i].inputs != [] && txs[i].outputs != [] && (IsIssue(txs[i]) || SpendsSome(txs[i].inputs))
      ensures IsIssue(txs[i]) ==> !SpendsSome(txs[i].inputs)
    {
      TransactionChecked(txs[i]);
    }
    hide CheckTransaction, SpendsSome;
    assert forall i :: 0 <= i < |txs| ==> (txs[i].IsCoinbase() <==> IsIssue(txs[i]));
  }

  lemma {:induction false} TransactionChecked(tx: Transaction)
    ensures CheckTransaction(tx) <==>
            tx.inputs != [] && tx.outputs != [] && (IsIssue(tx) || SpendsSome(tx.inputs))
    ensures IsIssue(tx) ==> !SpendsSome(tx.inputs)
  {
  }

  // ---- Conservation within a block ----

  /** The unspent outputs once the given transactions are confirmed, in whatever order. */
  ghost function Batch(unspent: Outputs, txs: seq<Transaction>): Outputs {
    (unspent + BlockOutputs(txs)) - set p | p in BlockPoints(txs)
  }

  /** A block that passes check, populate and accept over the given unspent outputs. */
  ghost predicate Validated(txs: seq<Transaction>, unspent: Outputs, prevouts: Outputs, bip68: bool,
                            height: nat, c: Settings)
    requires c.Valid()
  {
    && Checked(txs) && Populated(txs, bip68) && Accepted(txs, prevouts, height, c)
    && Overlaid(prevouts, unspent, BlockOutputs(txs), BlockPoints(txs[1..]))
  }

  /** In a block of distinct points, those of a transaction are its own. */
  lemma {:induction false} OwnPoints(txs: seq<Transaction>, at: nat)
    requires at < |txs| && Distinct(BlockPoints(txs))
    ensures Distinct(Points(txs[at].inputs))
    ensures forall k :: 0 <= k < |txs[at].inputs| ==>
              txs[at].inputs[k].point in BlockPoints(txs) && txs[at].inputs[k].point !in BlockPoints(txs[..at])
  {
    hide BlockPoints;
    var before, all, points := BlockPoints(txs[..at]), BlockPoints(txs), Points(txs[at].inputs);
    BlockPointsNext(txs, at);
    BlockPointsPrefix(txs, at + 1);
    assert before + points <= all;
    assert forall k :: 0 <= k < |before| ==> before[k] == all[k];
    forall k | 0 <= k < |points|
      ensures points[k] == all[|before| + k]
    {
      assert (before + points)[|before| + k] == points[k];
    }
  }

  /** The inputs of a transaction spend outputs left by those before it, at the populated value. */
  lemma {:induction false} InputsBacked(txs: seq<Transaction>, unspent: Outputs, prevouts: Outputs, bip68: bool, at: nat)
    requires Checked(txs) && Populated(txs, bip68) && 1 <= at < |txs|
    requires Overlaid(prevouts, unspent, BlockOutputs(txs), BlockPoints(txs[1..]))
    requires AcceptTransaction(txs[at], prevouts) == Success
    ensures Backed(Batch(unspent, txs[1..at]), prevouts, txs[at].inputs)
    ensures Distinct(Points(txs[at].inputs))
  {
    hide BlockOutputs, BlockPoints, Overlaid, AcceptTransaction, Distinct, HasForwardReference, CheckTransaction;
    OwnPoints(txs[1..], at - 1);
    assert txs[1..][..at - 1] == txs[1..at];
    assert Ready(txs, txs[at].inputs, bip68);
    forall k | 0 <= k < |txs[at].inputs|
      ensures InputBacked(txs, unspent, prevouts, at, txs[at].inputs[k].point)
    {
      assert !Premature(txs, txs[at].inputs[k], bip68);
      PointBacked(txs, unspent, prevouts, at, k);
    }
  }

  ghost predicate InputBacked(txs: seq<Transaction>, unspent: Outputs, prevouts: Outputs, at: nat, p: Point)
    requires 1 <= at < |txs|
  {
    var m := Batch(unspent, txs[1..at]);
    p in m && p in prevouts && m[p] == prevouts[p]
  }

  lemma {:induction false} PointBacked(txs: seq<Transaction>, unspent: Outputs, prevouts: Outputs, at: nat, k: nat)
    requires 1 <= at < |txs| && k < |txs[at].inputs| && !HasForwardReference(txs, 1)
    requires Overlaid(prevouts, unspent, BlockOutputs(txs), BlockPoints(txs[1..]))
    requires AcceptTransaction(txs[at], prevouts) == Success && !txs[at].IsCoinbase()
    requires var p := txs[at].inputs[k].point;
      p in BlockPoints(txs[1..]) && p !in BlockPoints(txs[1..at]) &&
      !(p in BlockOutputs(txs) && p.hash == TxHash(txs[0]))
    ensures InputBacked(txs, unspent, prevouts, at, txs[at].inputs[k].point)
  {
    hide BlockOutputs, BlockPoints;
    var p := txs[at].inputs[k].point;
    BlockOutputAt(txs, p);
    BlockOutputAt(txs[1..at], p);
    NoSelfReference(txs[at], k);
    if p in BlockOutputs(txs) {
      var j :| 0 <= j < |txs| && txs[j] == p.hash.tx;
      assert j < at;
      assert txs[1..at][j - 1] == p.hash.tx;
    }
  }

  /** One transaction moves the total by no more than its outputs less its inputs. */
  lemma {:induction false} TransactionStep(unspent: Outputs, prevouts: Outputs, txs: seq<Transaction>, at: nat)
    requires at < |txs|
    requires Backed(Batch(unspent, txs[..at]), prevouts, txs[at].inputs) && Distinct(Points(txs[at].inputs))
    ensures Total(Batch(unspent, txs[..at + 1])) + Sum(InputValues(txs[at].inputs, prevouts)) <=
            Total(Batch(unspent, txs[..at])) + Sum(txs[at].outputs)
    ensures Sum(InputValues(txs[at].inputs, prevouts)) <= Total(Batch(unspent, txs[..at]))
  {
    hide Batch, Points, Total, InputValues, OutputMap, Distinct, Backed, Sum;
    var tx, m := txs[at], Batch(unspent, txs[..at]);
    var spent := m - set p | p in Points(tx.inputs);
    TotalSpent(m, prevouts, tx.inputs);
    TotalCreated(spent, tx, |tx.outputs|);
    assert tx.outputs[..|tx.outputs|] == tx.outputs;
    BatchNext(unspent, txs, at);
    TotalSubmap(Batch(unspent, txs[..at + 1]), spent + OutputMap(tx, |tx.outputs|));
  }

  lemma {:induction false} BatchNext(unspent: Outputs, txs: seq<Transaction>, at: nat)
    requires at < |txs|
    ensures Submap(Batch(unspent, txs[..at + 1]),
                   (Batch(unspent, txs[..at]) - set p | p in Points(txs[at].inputs)) +
                   OutputMap(txs[at], |txs[at].outputs|))
  {
    BlockPointsNext(txs, at);
    assert txs[..at + 1][..at] == txs[..at];
    assert BlockOutputs(txs[..at + 1]) == BlockOutputs(txs[..at]) + OutputMap(txs[at], |txs[at].outputs|);
    hide BlockOutputs, BlockPoints, OutputMap, Points;
  }

  /** Past each transaction, the total and the fees so far do not exceed the initial total,
      and none of the sums of the transaction has saturated. */
  lemma {:induction false} Conserved(txs: seq<Transaction>, unspent: Outputs, prevouts: Outputs, bip68: bool,
                                     height: nat, c: Settings, at: nat)
    requires c.Valid() && Validated(txs, unspent, prevouts, bip68, height, c) && 1 <= at <= |txs|
    requires Total(unspent) < MAX_UINT64 && forall p :: p in unspent ==> p.hash.TxHash?
    ensures Total(Batch(unspent, txs[1..at])) + Sum(FeeList(txs[..at], prevouts)) <= Total(unspent)
    ensures forall i :: 1 <= i < at ==> Unsaturated(txs[i], prevouts)
  {
    hide Batch, Total, Checked, Populated, Overlaid, BlockOutputs, BlockPoints, AcceptTransaction,
         InputValues, FeeList, Backed, Distinct, Sum, Unsaturated, Fee, Spend;
    if at == 1 {
      ConservedNone(txs, unspent, prevouts);
    } else {
      var tx := txs[at - 1];
      Conserved(txs, unspent, prevouts, bip68, height, c, at - 1);
      InputsBacked(txs, unspent, prevouts, bip68, at - 1);
      assert txs[1..][..at - 2] == txs[1..at - 1] && txs[1..][..at - 1] == txs[1..at];
      TransactionStep(unspent, prevouts, txs[1..], at - 2);
      CheckedSpender(txs, at - 1);
      SpendExact(tx, prevouts, Total(Batch(unspent, txs[1..at - 1])), Total(Batch(unspent, txs[1..at])));
      FeeNext(txs, prevouts, at - 1);
    }
  }

  lemma {:induction false} CheckedSpender(txs: seq<Transaction>, at: nat)
    requires Checked(txs) && 1 <= at < |txs|
    ensures !txs[at].IsCoinbase()
  {
  }

  /** An accepted transaction over a total below the maximum leaves at least its fee behind. */
  lemma {:induction false} SpendExact(tx: Transaction, prevouts: Outputs, before: nat, after: nat)
    requires AcceptTransaction(tx, prevouts) == Success && !tx.IsCoinbase()
    requires Sum(InputValues(tx.inputs, prevouts)) <= before < MAX_UINT64
    requires after + Sum(InputValues(tx.inputs, prevouts)) <= before + Sum(tx.outputs)
    ensures Unsaturated(tx, prevouts) && after + Fee(tx, prevouts) <= before
  {
    hide InputValues, Sum;
  }

  lemma {:induction false} ConservedNone(txs: seq<Transaction>, unspent: Outputs, prevouts: Outputs)
    requires Checked(txs) && Overlaid(prevouts, unspent, BlockOutputs(txs), BlockPoints(txs[1..]))
    requires forall p :: p in unspent ==> p.hash.TxHash?
    ensures Total(Batch(unspent, txs[1..1])) + Sum(FeeList(txs[..1], prevouts)) == Total(unspent)
  {
    CheckedNonEmpty(txs);
    hide Checked, Overlaid, Fee, Total, Batch, Sum, FeeList, BlockOutputs, BlockPoints;
    CoinbaseFee(txs, unspent, prevouts);
    FeeNext(txs, prevouts, 0);
    assert txs[..0] == [] && txs[1..1] == [];
    NothingYet(unspent, prevouts);
  }

  lemma {:induction false} NothingYet(unspent: Outputs, prevouts: Outputs)
    ensures Batch(unspent, []) == unspent && Sum(FeeList([], prevouts)) == 0
  {
  }

  /** The saturating sums of a transaction are its sums, and it spends no more than its value. */
  ghost predicate Unsaturated(tx: Transaction, prevouts: Outputs) {
    && Value(tx, prevouts) == Sum(InputValues(tx.inputs, prevouts))
    && Spend(tx) == Sum(tx.outputs)
    && Value(tx, prevouts) == Spend(tx) + Fee(tx, prevouts)
  }

  lemma {:induction false} FeeNext(txs: seq<Transaction>, prevouts: Outputs, at: nat)
    requires at < |txs|
    ensures Sum(FeeList(txs[..at + 1], prevouts)) == Sum(FeeList(txs[..at], prevouts)) + Fee(txs[at], prevouts)
  {
    assert txs[..at + 1][..at] == txs[..at];
    var list := FeeList(txs[..at + 1], prevouts);
    assert list[..|list| - 1] == FeeList(txs[..at], prevouts);
  }

  lemma {:induction false} CoinbaseFee(txs: seq<Transaction>, unspent: Outputs, prevouts: Outputs)
    requires Checked(txs) && Overlaid(prevouts, unspent, BlockOutputs(txs), BlockPoints(txs[1..]))
    requires forall p :: p in unspent ==> p.hash.TxHash?
    ensures Fee(txs[0], prevouts) == 0
  {
    hide BlockOutputs, BlockPoints, HasForwardReference, Distinct, CheckTransaction, Fee;
    var point := txs[0].inputs[0].point;
    BlockOutputAt(txs, point);
    assert point !in prevouts;
    hide Checked, Overlaid;
    FeeMissing(txs[0], prevouts);
  }

  lemma {:induction false} FeeMissing(tx: Transaction, prevouts: Outputs)
    requires |tx.inputs| == 1 && tx.inputs[0].point !in prevouts
    ensures Fee(tx, prevouts) == 0
  {
    assert InputValues(tx.inputs, prevouts) == [0] by {
      assert tx.inputs[..0] == [] && InputValues([], prevouts) == [];
    }
    assert Sum([0]) == 0;
  }

  /** A validated block creates at most its subsidy, and no sum over it saturates. */
  lemma {:induction false} BlockCreatesSubsidy(txs: seq<Transaction>, unspent: Outputs, prevouts: Outputs, bip68: bool,
                            height: nat, c: Settings)
    requires c.Valid() && Validated(txs, unspent, prevouts, bip68, height, c)
    requires Total(unspent) + Subsidy(height, c) < MAX_UINT64 && forall p :: p in unspent ==> p.hash.TxHash?
    ensures Total(Confirmed(unspent, txs)) <= Total(unspent) + Subsidy(height, c)
    ensures forall i :: 1 <= i < |txs| ==> Unsaturated(txs[i], prevouts)
    ensures Fees(txs, prevouts) == Sum(FeeList(txs, prevouts)) && Spend(txs[0]) == Sum(txs[0].outputs)
    ensures Spend(txs[0]) <= Fees(txs, prevouts) + Subsidy(height, c) < MAX_UINT64
  {
    hide Batch, Total, Populated, Overlaid, BlockOutputs, BlockPoints, AcceptTransaction,
         InputValues, FeeList, Backed, Distinct, Sum, Unsaturated, Fee, Subsidy, Confirmed, OutputMap;
    Conserved(txs, unspent, prevouts, bip68, height, c, |txs|);
    assert txs[1..|txs|] == txs[1..] && txs[..|txs|] == txs;
    var coinbase := txs[0];
    TotalCreated(Batch(unspent, txs[1..]), coinbase, |coinbase.outputs|);
    assert coinbase.outputs[..|coinbase.outputs|] == coinbase.outputs;
    ConfirmedBatch(unspent, txs);
    TotalSubmap(Confirmed(unspent, txs),
                Batch(unspent, txs[1..]) + OutputMap(coinbase, |coinbase.outputs|));
  }

  /** The unspent outputs above a block: all that were, or are created, and are not spent. */
  ghost function Confirmed(unspent: Outputs, txs: seq<Transaction>): Outputs
    requires |txs| > 0
  {
    (unspent + BlockOutputs(txs)) - set p | p in BlockPoints(txs[1..])
  }

  lemma {:induction false} ConfirmedBatch(unspent: Outputs, txs: seq<Transaction>)
    requires |txs| > 0
    ensures Submap(Confirmed(unspent, txs), Batch(unspent, txs[1..]) + OutputMap(txs[0], |txs[0].outputs|))
  {
    hide BlockOutputs, BlockPoints, OutputMap;
    forall p | p in Confirmed(unspent, txs)
      ensures var m := Batch(unspent, txs[1..]) + OutputMap(txs[0], |txs[0].outputs|);
        p in m && Confirmed(unspent, txs)[p] == m[p]
    {
      BlockOutputAt(txs, p);
      BlockOutputAt(txs[1..], p);
      OutputAt(txs[0], |txs[0].outputs|, p);
      if p in BlockOutputs(txs) && p.hash.tx != txs[0] {
        var j :| 0 <= j < |txs| && txs[j] == p.hash.tx;
        assert txs[1..][j - 1] == p.hash.tx;
      }
    }
  }

  // ---- Supply ----

  /** A value below 2^bits is shifted out by that many bits. */
  lemma {:induction false} ShiftedOut(value: uint64, shift: nat, bits: nat)
    requires bits <= shift && value < Pow2(bits)
    ensures Shifted(value, shift) == 0
    decreases bits
  {
    if bits == 0 {
      ShiftedZero(shift);
    } else {
      ShiftedOut(value / 2, shift - 1, bits - 1);
    }
  }

  lemma {:induction false} ShiftedZero(shift: nat)
    ensures Shifted(0, shift) == 0
  {
    if shift > 0 {
      ShiftedZero(shift - 1);
    }
  }

  /** With bip42 every halving shifts, however many there are. */
  lemma {:induction false} SubsidyShifts(height: nat, c: Settings)
    requires c.Valid() && c.bip42
    ensures Subsidy(height, c) == Shifted(c.initial, height / c.interval)
  {
    hide ShiftRight, Shifted;
    AllShifted(c.initial, height / c.interval);
  }

  lemma {:induction false} AllShifted(value: uint64, shift: nat)
    ensures ShiftRight(value, shift, true) == Shifted(value, shift)
  {
    if shift >= 64 {
      Pow2At64();
      ShiftedOut(value, shift, 64);
    }
  }

  lemma {:induction false} NextInterval(height: nat, interval: nat)
    requires interval > 0
    ensures (height + interval) / interval == height / interval + 1
  {
    var q, r := height / interval, height % interval;
    assert height == q * interval + r;
    assert height + interval == (q + 1) * interval + r;
    DivideUnique(height + interval, interval, q + 1, r);
  }

  lemma {:induction false} FirstInterval(height: nat, c: Settings)
    requires c.Valid() && c.bip42 && height <= c.interval
    ensures Issued(height, c) == height * c.initial
  {
    if height > 0 {
      FirstInterval(height - 1, c);
      DivideUnique(height - 1, c.interval, 0, height - 1);
      SubsidyShifts(height - 1, c);
      assert height * c.initial == (height - 1) * c.initial + c.initial;
    }
  }

  /** What is issued past the first interval is issued by the chain that starts at half the subsidy. */
  lemma {:induction false} LaterIntervals(height: nat, c: Settings)
    requires c.Valid() && c.bip42
    ensures Issued(height + c.interval, c) == c.interval * c.initial + Issued(height, c.(initial := c.initial / 2))
  {
    var half := c.(initial := c.initial / 2);
    if height == 0 {
      FirstInterval(c.interval, c);
    } else {
      LaterIntervals(height - 1, c);
      NextInterval(height - 1, c.interval);
      SubsidyShifts(height - 1 + c.interval, c);
      SubsidyShifts(height - 1, half);
    }
  }

  lemma {:induction false} MaxMoneyHalves(c: Settings)
    requires c.initial > 0
    ensures MaxMoney(c) == c.interval * c.initial + MaxMoney(c.(initial := c.initial / 2))
  {
    assert Halvings(c.initial) == c.initial + Halvings(c.initial / 2);
    assert (c.initial + Halvings(c.initial / 2)) * c.interval ==
           c.initial * c.interval + Halvings(c.initial / 2) * c.interval;
  }

  /** Under bip42 the subsidies of all heights never exceed the maximum money. */
  lemma {:induction false} IssuedBelowMaximum(height: nat, c: Settings)
    requires c.Valid() && c.bip42
    ensures Issued(height, c) <= MaxMoney(c)
    decreases height
  {
    hide MaxMoney, Issued;
    if c.initial == 0 {
      NothingIssued(height, c);
    } else {
      var half := c.(initial := c.initial / 2);
      MaxMoneyHalves(c);
      if height <= c.interval {
        FirstInterval(height, c);
        assert height * c.initial <= c.interval * c.initial;
      } else {
        LaterIntervals(height - c.interval, c);
        IssuedBelowMaximum(height - c.interval, half);
      }
    }
  }

  lemma {:induction false} NothingIssued(height: nat, c: Settings)
    requires c.Valid() && c.initial == 0
    ensures Issued(height, c) == 0
  {
    hide Shifted;
    if height > 0 {
      NothingIssued(height - 1, c);
      var halves := (height - 1) / c.interval;
      ShiftedZero(halves);
      ShiftedZero(halves % 64);
    }
  }

  /** Without bip42 the subsidy restarts every 64 halvings, so that no amount bounds the supply. */
  lemma {:induction false} UnboundedWithoutBip42(c: Settings, bound: nat) returns (height: nat)
    requires c.Valid() && !c.bip42 && c.initial > 0
    ensures Issued(height, c) > bound
  {
    height := RestartHeight(c, bound) + 1;
    RestartIssued(c, bound);
  }

  /** Some amount bounds what is issued if and only if bip42 is active or there is no subsidy. */
  lemma {:induction false} BoundedIffBip42(c: Settings)
    requires c.Valid()
    ensures (exists bound: nat :: Bounds(bound, c)) <==> c.bip42 || c.initial == 0
  {
    hide Issued;
    if c.bip42 {
      forall height: nat
        ensures Issued(height, c) <= MaxMoney(c)
      {
        IssuedBelowMaximum(height, c);
      }
      assert Bounds(MaxMoney(c), c);
    } else if c.initial == 0 {
      forall height: nat
        ensures Issued(height, c) <= 0
      {
        NothingIssued(height, c);
      }
      assert Bounds(0, c);
    } else if bound: nat :| Bounds(bound, c) {
      var height := UnboundedWithoutBip42(c, bound);
    }
  }

  /** No more than the bound is issued at any height. */
  ghost predicate Bounds(bound: nat, c: Settings)
    requires c.Valid()
  {
    forall height: nat :: Issued(height, c) <= bound
  }

  function RestartHeight(c: Settings, n: nat): nat {
    n * 64 * c.interval
  }

  lemma {:induction false} RestartIssued(c: Settings, n: nat)
    requires c.Valid() && !c.bip42 && c.initial > 0
    ensures Issued(RestartHeight(c, n) + 1, c) >= n + 1
  {
    var height := RestartHeight(c, n);
    DivideUnique(height, c.interval, n * 64, 0);
    assert (n * 64) % 64 == 0;
    assert Subsidy(height, c) == c.initial;
    if n > 0 {
      RestartIssued(c, n - 1);
      assert height == RestartHeight(c, n - 1) + 64 * c.interval;
      IssuedMonotone(RestartHeight(c, n - 1) + 1, height, c);
    }
  }

  lemma {:induction false} IssuedMonotone(low: nat, high: nat, c: Settings)
    requires c.Valid() && low <= high
    ensures Issued(low, c) <= Issued(high, c)
    decreases high - low
  {
    if low < high {
      IssuedMonotone(low, high - 1, c);
    }
  }

  // ---- Runs ----

  datatype Chain = Chain(height: nat, unspent: Outputs)

  /** A block, with the prevouts of its inputs and whether bip68 is active. */
  datatype Block = Block(txs: seq<Transaction>, prevouts: Outputs, bip68: bool)

  /** One block is validated over the unspent outputs and then confirmed. */
  ghost predicate Extends(c: Settings, s: Chain, b: Block, t: Chain)
    requires c.Valid()
  {
    && Validated(b.txs, s.unspent, b.prevouts, b.bip68, s.height, c)
    && t == Chain(s.height + 1, Confirmed(s.unspent, b.txs))
  }

  /** Every state follows from the one before by one block, from no unspent outputs at height zero. */
  ghost predicate IsRun(c: Settings, run: seq<Chain>, blocks: seq<Block>)
    requires c.Valid()
  {
    && |run| == |blocks| + 1 && run[0] == Chain(0, map[])
    && forall i :: 0 <= i < |blocks| ==> Extends(c, run[i], blocks[i], run[i + 1])
  }

  ghost predicate Backing(c: Settings, s: Chain)
    requires c.Valid()
  {
    Total(s.unspent) <= Issued(s.height, c) && forall p :: p in s.unspent ==> p.hash.TxHash?
  }

  /** No sum of the block saturates, and it creates at most its subsidy. */
  ghost predicate Exact(c: Settings, s: Chain, b: Block, t: Chain)
    requires c.Valid() && |b.txs| > 0
  {
    && Total(t.unspent) <= Total(s.unspent) + Subsidy(s.height, c)
    && (forall i :: 1 <= i < |b.txs| ==> Unsaturated(b.txs[i], b.prevouts))
    && Fees(b.txs, b.prevouts) == Sum(FeeList(b.txs, b.prevouts))
    && Spend(b.txs[0]) == Sum(b.txs[0].outputs)
    && Spend(b.txs[0]) <= Fees(b.txs, b.prevouts) + Subsidy(s.height, c) < MAX_UINT64
  }

  lemma {:induction false} ExtendsBacking(c: Settings, s: Chain, b: Block, t: Chain)
    requires c.Valid() && c.bip42 && MaxMoney(c) < MAX_UINT64
    requires Backing(c, s) && Extends(c, s, b, t)
    ensures |b.txs| > 0 && Exact(c, s, b, t) && Backing(c, t)
  {
    hide Checked, Populated, Accepted, Overlaid, BlockOutputs, BlockPoints, Total, Unsaturated, FeeList, Sum,
         Subsidy, MaxMoney, Spend, Fees;
    CheckedNonEmpty(b.txs);
    IssuedBelowMaximum(s.height + 1, c);
    BlockCreatesSubsidy(b.txs, s.unspent, b.prevouts, b.bip68, s.height, c);
    forall p | p in t.unspent
      ensures p.hash.TxHash?
    {
      BlockOutputAt(b.txs, p);
    }
  }

  /** Along every run the unspent value is backed by subsidies and so never exceeds the maximum,
      and no sum of any block saturates. */
  lemma {:induction false} SupplyBounded(c: Settings, run: seq<Chain>, blocks: seq<Block>, i: nat)
    requires c.Valid() && c.bip42 && MaxMoney(c) < MAX_UINT64
    requires IsRun(c, run, blocks) && i < |run|
    ensures Backing(c, run[i]) && run[i].height == i
    ensures Total(run[i].unspent) <= Issued(i, c) <= MaxMoney(c)
    ensures i > 0 ==> |blocks[i - 1].txs| > 0 && Exact(c, run[i - 1], blocks[i - 1], run[i])
  {
    hide Exact, Extends, MaxMoney, Issued;
    if i == 0 {
      assert Total(run[0].unspent) == 0;
    } else {
      SupplyBounded(c, run, blocks, i - 1);
      assert Extends(c, run[i - 1], blocks[i - 1], run[i - 1 + 1]);
      ExtendsBacking(c, run[i - 1], blocks[i - 1], run[i]);
      ExtendsHeight(c, run[i - 1], blocks[i - 1], run[i]);
    }
    IssuedBelowMaximum(i, c);
  }

  lemma {:induction false} ExtendsHeight(c: Settings, s: Chain, b: Block, t: Chain)
    requires c.Valid() && Extends(c, s, b, t)
    ensures t.height == s.height + 1
  {
  }

  /** Validates one block in the order of the source, and yields the next state of the chain. */
  method Extend(c: Settings, s: Chain, txs: seq<Transaction>, v: Verdicts, bip68: bool)
    returns (ec: Code, prevouts: Outputs, ghost t: Chain)
    requires c.Valid()
    ensures ec == Success <==>
            && CheckedParts(txs) && Populated(txs, bip68) && AcceptedSums(txs, prevouts, s.height, c)
            && !v.oversized && !v.otherRoot && !v.coinbaseSize && !v.sigopsLimited
    ensures ec == Success ==> Extends(c, s, Block(txs, prevouts, bip68), t)
  {
    hide Checked, CheckedParts, Populated, Accepted, AcceptedSums, Overlaid, Confirmed;
    t := s;
    prevouts := s.unspent;
    ec := Check(txs, v);
    CheckedIff(txs);
    if ec != Success {
      return;
    }
    CheckedNonEmpty(txs);
    ec, prevouts := Populate(txs, s.unspent, bip68);
    if ec != Success {
      return;
    }
    ec := Accept(txs, v, prevouts, s.height, c);
    AcceptedIff(txs, prevouts, s.height, c);
    t := Chain(s.height + 1, Confirmed(s.unspent, txs));
  }

  lemma {:induction false} CheckedNonEmpty(txs: seq<Transaction>)
    requires Checked(txs)
    ensures |txs| > 0
  {
  }
}
