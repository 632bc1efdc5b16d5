/** Sizes and identity hashes of transactions: hashing from a serialized buffer and caching. The
    digest is a parameter. */
module TransactionCache {
  import opened Common
  import opened Words
  import opened Wire
  import opened TransactionCodec

  // ---- Sizes, in words that do not overflow ----

  function Ceiling(n: nat): nat {
    if n > MAX_UINT64 then MAX_UINT64 else n
  }

  function ScriptSize(s: seq<byte>): nat {
    CeilingedAdd(|s|, VariableSize(|s|))
  }

  function InputSize(i: Input): nat {
    CeilingedAdd(40, ScriptSize(i.script))
  }

  function ElementsSize(s: seq<seq<byte>>): nat {
    if s == [] then 0 else CeilingedAdd(ElementsSize(s[..|s| - 1]), ScriptSize(s[|s| - 1]))
  }

  function StackSize(s: seq<seq<byte>>): nat {
    CeilingedAdd(ElementsSize(s), VariableSize(|s|))
  }

  function WitnessedInputSize(i: Input): nat {
    CeilingedAdd(InputSize(i), StackSize(i.stack))
  }

  function OutputSize(o: Output): nat {
    CeilingedAdd(8, ScriptSize(o.script))
  }

  function InputsSize(s: seq<Input>): nat {
    if s == [] then 0 else CeilingedAdd(InputsSize(s[..|s| - 1]), InputSize(s[|s| - 1]))
  }

  function WitnessedInputsSize(s: seq<Input>): nat {
    if s == [] then 0 else CeilingedAdd(WitnessedInputsSize(s[..|s| - 1]), WitnessedInputSize(s[|s| - 1]))
  }

  function OutputsSize(s: seq<Output>): nat {
    if s == [] then 0 else CeilingedAdd(OutputsSize(s[..|s| - 1]), OutputSize(s[|s| - 1]))
  }

  function SerializedSize(tx: Transaction, witnessed: bool): nat {
    var base := CeilingedAdd(CeilingedAdd(CeilingedAdd(8, VariableSize(|tx.inputs|)), VariableSize(|tx.outputs|)),
                             OutputsSize(tx.outputs));
    if witnessed && tx.segregated then CeilingedAdd(CeilingedAdd(base, 2), WitnessedInputsSize(tx.inputs))
    else CeilingedAdd(base, InputsSize(tx.inputs))
  }

  /** Saturation can be left to the end. */
  lemma {:induction false} CeilingTwice(a: nat, b: nat)
    ensures CeilingedAdd(Ceiling(a), Ceiling(b)) == Ceiling(a + b)
    ensures CeilingedAdd(Ceiling(a), b) == Ceiling(a + b)
  {
  }

  lemma {:induction false} ScriptHasSize(s: seq<byte>)
    ensures ScriptSize(s) == Ceiling(|ScriptData(s)|)
  {
    hide Variable;
    VariableHasSize(|s|);
  }

  lemma {:induction false} InputHasSize(i: Input)
    requires IsInput(i)
    ensures InputSize(i) == Ceiling(|InputData(i)|)
  {
    hide ScriptData, ToLittleEndian;
    ScriptHasSize(i.script);
  }

  lemma {:induction false} OutputHasSize(o: Output)
    ensures OutputSize(o) == Ceiling(|OutputData(o)|)
  {
    hide ScriptData, ToLittleEndian;
    ScriptHasSize(o.script);
  }

  lemma {:induction false} ElementsAppend(a: seq<seq<byte>>, b: seq<seq<byte>>)
    ensures ElementsData(a + b) == ElementsData(a) + ElementsData(b)
    decreases |a|
  {
    hide ScriptData;
    if a == [] {
      assert a + b == b;
    } else {
      ElementsAppend(a[1..], b);
      assert (a + b)[1..] == a[1..] + b;
    }
  }

  lemma {:induction false} ElementsHaveSize(s: seq<seq<byte>>)
    ensures ElementsSize(s) == Ceiling(|ElementsData(s)|)
    decreases |s|
  {
    if s != [] {
      var front, last := s[..|s| - 1], s[|s| - 1];
      ElementsHaveSize(front);
      ScriptHasSize(last);
      ElementsNext(s);
      hide ScriptData, ElementsData, ScriptSize;
      CeilingTwice(|ElementsData(front)|, |ScriptData(last)|);
    }
  }

  lemma {:induction false} ElementsNext(s: seq<seq<byte>>)
    requires s != []
    ensures var front, last := s[..|s| - 1], s[|s| - 1];
      |ElementsData(s)| == |ElementsData(front)| + |ScriptData(last)|
  {
    hide ScriptData;
    var front, last := s[..|s| - 1], s[|s| - 1];
    assert s == front + [last];
    ElementsAppend(front, [last]);
    assert ElementsData([last]) == ScriptData(last) + ElementsData([]);
  }

  lemma {:induction false} StackHasSize(s: seq<seq<byte>>)
    ensures StackSize(s) == Ceiling(|StackData(s)|)
  {
    hide Variable, ElementsData;
    VariableHasSize(|s|);
    ElementsHaveSize(s);
  }

  lemma {:induction false} InputsAppend(a: seq<Input>, b: seq<Input>)
    ensures InputsData(a + b) == InputsData(a) + InputsData(b)
    ensures WitnessesData(a + b) == WitnessesData(a) + WitnessesData(b)
    decreases |a|
  {
    hide InputData, StackData;
    if a == [] {
      assert a + b == b;
    } else {
      InputsAppend(a[1..], b);
      assert (a + b)[1..] == a[1..] + b;
    }
  }

  lemma {:induction false} InputsNext(s: seq<Input>)
    requires s != []
    ensures var front, last := s[..|s| - 1], s[|s| - 1];
      && |InputsData(s)| == |InputsData(front)| + |InputData(last)|
      && |WitnessesData(s)| == |WitnessesData(front)| + |StackData(last.stack)|
  {
    hide InputData, StackData;
    var front, last := s[..|s| - 1], s[|s| - 1];
    assert s == front + [last];
    InputsAppend(front, [last]);
    assert InputsData([last]) == InputData(last) + InputsData([]);
    assert WitnessesData([last]) == StackData(last.stack) + WitnessesData([]);
  }

  lemma {:induction false} InputsSizeNext(s: seq<Input>)
    requires s != [] && IsInput(s[|s| - 1])
    requires var front := s[..|s| - 1];
      InputsSize(front) == Ceiling(|InputsData(front)|) &&
      WitnessedInputsSize(front) == Ceiling(|InputsData(front)| + |WitnessesData(front)|)
    ensures InputsSize(s) == Ceiling(|InputsData(s)|)
    ensures WitnessedInputsSize(s) == Ceiling(|InputsData(s)| + |WitnessesData(s)|)
  {
    hide InputData, StackData, InputSize, StackSize, IsInput, InputsData, WitnessesData, CeilingedAdd, Ceiling;
    var front, last := s[..|s| - 1], s[|s| - 1];
    InputsNext(s);
    var a, b, c, d := |InputsData(front)|, |WitnessesData(front)|, |InputData(last)|, |StackData(last.stack)|;
    InputHasSize(last);
    StackHasSize(last.stack);
    CeilingTwice(a, c);
    CeilingTwice(c, d);
    CeilingTwice(a + b, c + d);
    assert InputsSize(s) == CeilingedAdd(InputsSize(front), InputSize(last));
    assert WitnessedInputsSize(s) == CeilingedAdd(WitnessedInputsSize(front), WitnessedInputSize(last));
    hide InputsSize, WitnessedInputsSize;
    assert WitnessedInputSize(last) == CeilingedAdd(InputSize(last), StackSize(last.stack));
    assert a + b + (c + d) == (a + c) + (b + d);
  }

  lemma {:induction false} InputsHaveSize(s: seq<Input>)
    requires AreInputs(s)
    ensures InputsSize(s) == Ceiling(|InputsData(s)|)
    ensures WitnessedInputsSize(s) == Ceiling(|InputsData(s)| + |WitnessesData(s)|)
    decreases |s|
  {
    hide InputData, StackData, InputSize, StackSize, IsInput, WitnessedInputSize;
    if s != [] {
      assert IsInput(s[|s| - 1]);
      InputsHaveSize(s[..|s| - 1]);
      InputsSizeNext(s);
      hide InputsSize, WitnessedInputsSize, InputsData, WitnessesData, Ceiling;
    }
  }

  lemma {:induction false} OutputsAppend(a: seq<Output>, b: seq<Output>)
    ensures OutputsData(a + b) == OutputsData(a) + OutputsData(b)
    decreases |a|
  {
    hide OutputData;
    if a == [] {
      assert a + b == b;
    } else {
      OutputsAppend(a[1..], b);
      assert (a + b)[1..] == a[1..] + b;
    }
  }

  lemma {:induction false} OutputsNext(s: seq<Output>)
    requires s != []
    ensures |OutputsData(s)| == |OutputsData(s[..|s| - 1])| + |OutputData(s[|s| - 1])|
  {
    hide OutputData;
    var front, last := s[..|s| - 1], s[|s| - 1];
    assert s == front + [last];
    OutputsAppend(front, [last]);
    assert OutputsData([last]) == OutputData(last) + OutputsData([]);
  }

  lemma {:induction false} OutputsHaveSize(s: seq<Output>)
    ensures OutputsSize(s) == Ceiling(|OutputsData(s)|)
    decreases |s|
  {
    hide OutputData, OutputSize;
    if s != [] {
      var front, last := s[..|s| - 1], s[|s| - 1];
      OutputsHaveSize(front);
      OutputHasSize(last);
      OutputsNext(s);
      CeilingTwice(|OutputsData(front)|, |OutputData(last)|);
      hide OutputsData, CeilingedAdd, Ceiling;
    }
  }

  /** The size is that of the bytes written, up to the largest word. */
  lemma {:induction false} SizeIsLength(tx: Transaction, witnessed: bool)
    requires AreInputs(tx.inputs)
    ensures SerializedSize(tx, witnessed) == Ceiling(|TransactionData(tx, witnessed)|)
  {
    hide Variable, InputsData, OutputsData, WitnessesData, ToLittleEndian, InputsSize, OutputsSize, WitnessedInputsSize;
    hide VariableSize, AreInputs, CeilingedAdd, Ceiling;
    InputsHaveSize(tx.inputs);
    OutputsHaveSize(tx.outputs);
    VariableHasSize(|tx.inputs|);
    VariableHasSize(|tx.outputs|);
    var inputs, outputs := |InputsData(tx.inputs)|, |OutputsData(tx.outputs)|;
    var i, o := VariableSize(|tx.inputs|), VariableSize(|tx.outputs|);
    BaseSize(i, o, outputs);
    if witnessed && tx.segregated {
      CeilingTwice(8 + i + o + outputs, 2);
      CeilingTwice(8 + i + o + outputs + 2, inputs + |WitnessesData(tx.inputs)|);
    } else {
      CeilingTwice(8 + i + o + outputs, inputs);
    }
  }

  lemma {:induction false} BaseSize(i: nat, o: nat, outputs: nat)
    ensures CeilingedAdd(CeilingedAdd(CeilingedAdd(8, i), o), Ceiling(outputs)) == Ceiling(8 + i + o + outputs)
  {
  }

  // ---- Hashing from a buffer ----

  /** The bytes hashed for a nominal transaction, out of a serialization with witnesses: the version,
      the inputs and outputs after the marker and flag, and the locktime. */
  function Desegregated(data: seq<byte>, witnessed: nat, unwitnessed: nat): seq<byte>
    requires 6 + FlooredSubtract(unwitnessed, 8) <= |data| && FlooredSubtract(witnessed, 4) + 4 <= |data|
  {
    var puts, locktime := FlooredSubtract(unwitnessed, 8), FlooredSubtract(witnessed, 4);
    data[..4] + data[6..6 + puts] + data[locktime..locktime + 4]
  }

  /** The slices of a serialization with witnesses are the serialization without. */
  lemma {:induction false} DesegregatedIsNominal(tx: Transaction, after: seq<byte>)
    requires tx.segregated
    ensures var witnessed, unwitnessed := |TransactionData(tx, true)|, |TransactionData(tx, false)|;
      var data := TransactionData(tx, true) + after;
      && 6 + FlooredSubtract(unwitnessed, 8) <= |data| && FlooredSubtract(witnessed, 4) + 4 <= |data|
      && Desegregated(data, witnessed, unwitnessed) == TransactionData(tx, false)
  {
    hide PutInputs, PutOutputs, WitnessesData, ToLittleEndian;
    var version, locktime := ToLittleEndian(tx.version, 4), ToLittleEndian(tx.locktime, 4);
    var puts, signed := PutInputs(tx.inputs) + PutOutputs(tx.outputs), WitnessesData(tx.inputs);
    var data := TransactionData(tx, true) + after;
    assert data == version + [WITNESS_MARKER, WITNESS_ENABLED] + puts + signed + locktime + after;
    Slices(version, [WITNESS_MARKER, WITNESS_ENABLED], puts, signed, locktime, after);
    assert TransactionData(tx, false) == version + puts + locktime;
  }

  lemma {:induction false} Slices(a: seq<byte>, b: seq<byte>, c: seq<byte>, d: seq<byte>, e: seq<byte>, f: seq<byte>)
    requires |a| == 4 && |b| == 2 && |e| == 4
    ensures var data := a + b + c + d + e + f;
      var at := 6 + |c| + |d|;
      data[..4] == a && data[6..6 + |c|] == c && data[at..at + 4] == e
  {
  }

  // ---- Cached hashes ----

  type Digest = nat

  const NULL_HASH: Digest := 0

  predicate IsCoinbase(tx: Transaction) {
    && |tx.inputs| == 1 && tx.inputs[0].point.index == 0xffff_ffff
    && tx.inputs[0].point.hash == seq(32, _ => 0)
  }

  /** The identity of a transaction (BIP141): that of a coinbase with its witness is null. */
  ghost function Canonical(tx: Transaction, witnessed: bool, digest: seq<byte> -> Digest): Digest {
    if witnessed && tx.segregated && IsCoinbase(tx) then 0 else digest(TransactionData(tx, witnessed))
  }

  class CachedTransaction {
    const tx: Transaction
    const digest: seq<byte> -> Digest
    var nominal: Option<Digest>
    var signed: Option<Digest>

    /** Whatever is cached is what would be computed. */
    ghost predicate Valid()
      reads this
    {
      && (nominal.Some? ==> nominal.value == Canonical(tx, false, digest))
      && (signed.Some? ==> signed.value == Canonical(tx, true, digest))
    }

    constructor (tx: Transaction, digest: seq<byte> -> Digest)
      ensures Valid() && this.tx == tx && this.digest == digest && nominal.None? && signed.None?
    {
      this.tx, this.digest := tx, digest;
      nominal, signed := None, None;
    }

    method Hash(witnessed: bool) returns (hash: Digest)
      requires Valid()
      ensures hash == Canonical(tx, witnessed, digest)
    {
      hide TransactionData;
      if tx.segregated {
        if witnessed {
          if signed.Some? {
            return signed.value;
          }
          if IsCoinbase(tx) {
            return NULL_HASH;
          }
        } else {
          if nominal.Some? {
            return nominal.value;
          }
        }
      } else {
        OneSerialization(tx);
        if nominal.Some? {
          return nominal.value;
        }
      }
      return digest(TransactionData(tx, witnessed));
    }

    /** Computes a hash at most once. */
    method GetHash(witnessed: bool) returns (hash: Digest)
      requires Valid()
      modifies this
      ensures Valid() && hash == Canonical(tx, witnessed, digest)
      ensures if witnessed then signed == Some(hash) && nominal == old(nominal)
              else nominal == Some(hash) && signed == old(signed)
    {
      if witnessed {
        if signed.None? {
          var computed := Hash(witnessed);
          signed := Some(computed);
        }
        return signed.value;
      } else {
        if nominal.None? {
          var computed := Hash(witnessed);
          nominal := Some(computed);
        }
        return nominal.value;
      }
    }
  }

  lemma {:induction false} OneSerialization(tx: Transaction)
    requires !tx.segregated
    ensures TransactionData(tx, true) == TransactionData(tx, false)
  {
  }

  // ---- Hashes of a block from its own serialization ----

  const HEADER_SIZE: nat := 80

  function SizeOfVariable(prefix: byte): nat {
    if prefix == 0xff then 9 else if prefix == 0xfe then 5 else if prefix == 0xfd then 3 else 1
  }

  lemma {:induction false} VariablePrefix(value: nat)
    ensures |Variable(value)| > 0 && SizeOfVariable(Variable(value)[0]) == |Variable(value)|
  {
    hide ToLittleEndian;
  }

  ghost function TransactionsData(txs: seq<CachedTransaction>): seq<byte> {
    if txs == [] then [] else TransactionData(txs[0].tx, true) + TransactionsData(txs[1..])
  }

  /** What a block's serialization leaves cached for the transaction at an index. */
  ghost predicate HashesSet(t: CachedTransaction, first: bool)
    reads t
  {
    && t.nominal == Some(t.digest(TransactionData(t.tx, false)))
    && (t.tx.segregated && !first ==> t.signed == Some(t.digest(TransactionData(t.tx, true))))
  }

  /** Caches the hashes of one transaction from where its serialization begins. */
  method SetHash(t: CachedTransaction, data: seq<byte>, first: bool, ghost after: seq<byte>) returns (size: nat)
    requires AreInputs(t.tx.inputs) && |data| <= MAX_UINT64 && data == TransactionData(t.tx, true) + after
    modifies t
    ensures size == |TransactionData(t.tx, true)| && HashesSet(t, first)
    ensures !t.tx.segregated || first ==> t.signed == old(t.signed)
  {
    hide TransactionData, SerializedSize, AreInputs, Desegregated;
    size := SerializedSize(t.tx, true);
    SizeIsLength(t.tx, true);
    assert data[..size] == TransactionData(t.tx, true);
    if t.tx.segregated {
      DesegregatedIsNominal(t.tx, after);
      SizeIsLength(t.tx, false);
      NominalShorter(t.tx);
      var nominal := SerializedSize(t.tx, false);
      t.nominal := Some(t.digest(Desegregated(data, size, nominal)));
      if !first {
        t.signed := Some(t.digest(data[..size]));
      }
    } else {
      OneSerialization(t.tx);
      t.nominal := Some(t.digest(data[..size]));
    }
  }

  lemma {:induction false} NominalShorter(tx: Transaction)
    ensures |TransactionData(tx, false)| <= |TransactionData(tx, true)|
  {
    hide PutInputs, PutOutputs, WitnessesData, ToLittleEndian;
  }

  /** Caches the hashes of all the transactions of a block from its serialization. */
  method SetHashes(data: seq<byte>, txs: seq<CachedTransaction>, digest: seq<byte> -> Digest)
    returns (header: Digest)
    requires Distinct(txs) && |data| <= MAX_UINT64 && 80 <= |data|
    requires forall i :: 0 <= i < |txs| ==> AreInputs(txs[i].tx.inputs)
    requires data[80..] == Variable(|txs|) + TransactionsData(txs)
    modifies set t | t in txs
    ensures header == digest(data[..80])
    ensures forall i :: 0 <= i < |txs| ==> HashesSet(txs[i], i == 0)
    ensures forall i :: 0 <= i < |txs| && (!txs[i].tx.segregated || i == 0) ==> txs[i].signed == old(txs[i].signed)
  {
    hide TransactionData, AreInputs, HashesSet, Variable;
    header := digest(data[..HEADER_SIZE]);
    VariablePrefix(|txs|);
    assert data[HEADER_SIZE] == data[HEADER_SIZE..][0];
    var start: nat := HEADER_SIZE + SizeOfVariable(data[HEADER_SIZE]);
    assert data[start..] == data[HEADER_SIZE..][|Variable(|txs|)|..] == TransactionsData(txs[0..]) by {
      assert txs[0..] == txs;
    }
    var i: nat := 0;
    while i < |txs|
      invariant i <= |txs| && start <= |data| && data[start..] == TransactionsData(txs[i..])
      invariant forall k :: 0 <= k < i ==> HashesSet(txs[k], k == 0)
      invariant forall k :: 0 <= k < |txs| && (!txs[k].tx.segregated || k == 0 || k >= i) ==>
                  txs[k].signed == old(txs[k].signed)
    {
      ghost var after := TransactionsData(txs[i + 1..]);
      assert txs[i..][1..] == txs[i + 1..];
      var size := SetHash(txs[i], data[start..], i == 0, after);
      assert data[start + size..] == data[start..][size..] == after;
      start, i := start + size, i + 1;
    }
  }

  /** The hashes cached are those that would be computed, unless a transaction with witnesses that
      is not the first is a coinbase. */
  lemma {:induction false} CachedAreComputed(t: CachedTransaction, first: bool)
    requires HashesSet(t, first) && (!t.tx.segregated || first ==> t.signed.None?)
    requires forall bytes :: t.digest(bytes) != NULL_HASH
    ensures t.Valid() <==> first || !t.tx.segregated || !IsCoinbase(t.tx)
  {
    hide TransactionData;
  }

  /** A coinbase with a witness has a null identity, and not the hash that is cached if it is late. */
  lemma {:induction false} LateCoinbaseDiffers(digest: seq<byte> -> Digest)
    requires forall bytes :: digest(bytes) != NULL_HASH
    ensures var tx := Transaction(1, [Input(Point(seq(32, _ => 0), 0xffff_ffff), [], 0, [[]])], [], 0, true);
      && IsTransaction(tx) && IsCoinbase(tx)
      && Canonical(tx, true, digest) != digest(TransactionData(tx, true))
  {
    hide TransactionData;
    Powers();
    hide Pow256;
    var tx := Transaction(1, [Input(Point(seq(32, _ => 0), 0xffff_ffff), [], 0, [[]])], [], 0, true);
    assert tx.inputs[0].stack != [];
  }
}
