/** The serialization of transactions with and without witnesses (BIP144). A script is its bytes. */
module TransactionCodec {
  import opened Common
  import opened Words
  import opened Wire

  const MAX_COUNT: nat := 1_000_000
  const WITNESS_MARKER: byte := 0
  const WITNESS_ENABLED: byte := 1

  datatype Point = Point(hash: seq<byte>, index: nat)
  datatype Input = Input(point: Point, script: seq<byte>, sequence: nat, stack: seq<seq<byte>>)
  datatype Output = Output(value: nat, script: seq<byte>)
  datatype Transaction = Transaction(version: nat, inputs: seq<Input>, outputs: seq<Output>, locktime: nat,
                                     segregated: bool)

  // ---- Scripts, inputs and outputs ----

  function ScriptData(s: seq<byte>): seq<byte> {
    Variable(|s|) + s
  }

  function ReadScript(b: seq<byte>): Parsed<seq<byte>> {
    match ReadSize(b, MAX_UINT64)
    case Done(size, rest) => ReadBytes(rest, size)
    case Fail => Fail
  }

  lemma {:induction false} ScriptIff(b: seq<byte>, s: seq<byte>, rest: seq<byte>)
    ensures ReadScript(b) == Done(s, rest) <==> |s| <= MAX_UINT64 && b == ScriptData(s) + rest
  {
    hide ReadSize, ReadBytes, Variable;
    var p := ReadSize(b, MAX_UINT64);
    if p.Done? {
      SizeIff(b, MAX_UINT64, p.value, p.rest);
      BytesIff(p.rest, p.value, s, rest);
    }
    assert ScriptData(s) + rest == Variable(|s|) + (s + rest);
    SizeIff(b, MAX_UINT64, |s|, s + rest);
    BytesIff(s + rest, |s|, s, rest);
  }

  ghost predicate IsInput(i: Input) {
    && |i.point.hash| == 32 && i.point.index < Pow256(4) && |i.script| <= MAX_UINT64 && i.sequence < Pow256(4)
  }

  function InputData(i: Input): seq<byte> {
    i.point.hash + ToLittleEndian(i.point.index, 4) + ScriptData(i.script) + ToLittleEndian(i.sequence, 4)
  }

  function ReadInput(b: seq<byte>): Parsed<Input> {
    match ReadBytes(b, 32)
    case Fail => Fail
    case Done(hash, b1) =>
      match ReadLittle(b1, 4)
      case Fail => Fail
      case Done(index, b2) =>
        match ReadScript(b2)
        case Fail => Fail
        case Done(script, b3) =>
          match ReadLittle(b3, 4)
          case Fail => Fail
          case Done(sequence, rest) => Done(Input(Point(hash, index), script, sequence, []), rest)
  }

  lemma {:induction false} InputReads(i: Input, rest: seq<byte>)
    requires IsInput(i) && i.stack == []
    ensures ReadInput(InputData(i) + rest) == Done(i, rest)
  {
    hide ReadBytes, ReadLittle, ReadScript, ToLittleEndian, ScriptData, Pow256;
    var b3 := ToLittleEndian(i.sequence, 4) + rest;
    var b2 := ScriptData(i.script) + b3;
    var b1 := ToLittleEndian(i.point.index, 4) + b2;
    assert InputData(i) + rest == i.point.hash + b1;
    BytesIff(i.point.hash + b1, 32, i.point.hash, b1);
    LittleIff(b1, 4, i.point.index, b2);
    ScriptIff(b2, i.script, b3);
    LittleIff(b3, 4, i.sequence, rest);
  }

  lemma {:induction false} InputIff(b: seq<byte>, i: Input, rest: seq<byte>)
    ensures ReadInput(b) == Done(i, rest) <==> IsInput(i) && i.stack == [] && b == InputData(i) + rest
  {
    hide ReadBytes, ReadLittle, ReadScript, ToLittleEndian, ScriptData, Pow256;
    if ReadInput(b) == Done(i, rest) {
      var b1 := ReadBytes(b, 32).rest;
      BytesIff(b, 32, i.point.hash, b1);
      var b2 := ReadLittle(b1, 4).rest;
      LittleIff(b1, 4, i.point.index, b2);
      var b3 := ReadScript(b2).rest;
      ScriptIff(b2, i.script, b3);
      LittleIff(b3, 4, i.sequence, rest);
    }
    if IsInput(i) && i.stack == [] && b == InputData(i) + rest {
      InputReads(i, rest);
    }
  }

  ghost predicate IsOutput(o: Output) {
    o.value < Pow256(8) && |o.script| <= MAX_UINT64
  }

  function OutputData(o: Output): seq<byte> {
    ToLittleEndian(o.value, 8) + ScriptData(o.script)
  }

  function ReadOutput(b: seq<byte>): Parsed<Output> {
    match ReadLittle(b, 8)
    case Fail => Fail
    case Done(value, b1) =>
      match ReadScript(b1)
      case Fail => Fail
      case Done(script, rest) => Done(Output(value, script), rest)
  }

  lemma {:induction false} OutputIff(b: seq<byte>, o: Output, rest: seq<byte>)
    ensures ReadOutput(b) == Done(o, rest) <==> IsOutput(o) && b == OutputData(o) + rest
  {
    hide ReadLittle, ReadScript, ToLittleEndian, ScriptData, Pow256;
    if ReadOutput(b) == Done(o, rest) {
      var b1 := ReadLittle(b, 8).rest;
      LittleIff(b, 8, o.value, b1);
      ScriptIff(b1, o.script, rest);
    }
    if IsOutput(o) && b == OutputData(o) + rest {
      var b1 := ScriptData(o.script) + rest;
      assert b == ToLittleEndian(o.value, 8) + b1;
      LittleIff(b, 8, o.value, b1);
      ScriptIff(b1, o.script, rest);
    }
  }

  /** The fields of an input at their places: 32 bytes of hash, four of index, the script after its
      size, and four of sequence. */
  lemma {:induction false} InputFields(i: Input)
    requires IsInput(i)
    ensures var b, size := InputData(i), |Variable(|i.script|)|;
      && |b| == 40 + size + |i.script|
      && b[..32] == i.point.hash && LittleEndian(b[32..36]) == i.point.index
      && b[36..36 + size] == Variable(|i.script|) && b[36 + size..36 + size + |i.script|] == i.script
      && LittleEndian(b[|b| - 4..]) == i.sequence
  {
    hide Variable, LittleEndian, ToLittleEndian, Pow256;
    ReadWrite(i.point.index, 4);
    ReadWrite(i.sequence, 4);
    var b, size := InputData(i), |Variable(|i.script|)|;
    assert b[32..36] == ToLittleEndian(i.point.index, 4) && b[|b| - 4..] == ToLittleEndian(i.sequence, 4);
  }

  /** The fields of an output at their places: eight bytes of value, and the script after its size. */
  lemma {:induction false} OutputFields(o: Output)
    requires IsOutput(o)
    ensures var b, size := OutputData(o), |Variable(|o.script|)|;
      && |b| == 8 + size + |o.script| && LittleEndian(b[..8]) == o.value
      && b[8..8 + size] == Variable(|o.script|) && b[8 + size..] == o.script
  {
    hide Variable, LittleEndian, ToLittleEndian, Pow256;
    ReadWrite(o.value, 8);
    assert OutputData(o)[..8] == ToLittleEndian(o.value, 8);
  }

  // ---- Lists ----

  function InputsData(s: seq<Input>): seq<byte> {
    if s == [] then [] else InputData(s[0]) + InputsData(s[1..])
  }

  function ReadInputList(b: seq<byte>, count: nat): Parsed<seq<Input>>
    decreases count
  {
    if count == 0 then Done([], b)
    else
      match ReadInput(b)
      case Fail => Fail
      case Done(input, b1) =>
        match ReadInputList(b1, count - 1)
        case Fail => Fail
        case Done(inputs, rest) => Done([input] + inputs, rest)
  }

  ghost predicate AreInputs(s: seq<Input>) {
    forall i :: 0 <= i < |s| ==> IsInput(s[i])
  }

  ghost predicate NoWitness(s: seq<Input>) {
    forall i :: 0 <= i < |s| ==> s[i].stack == []
  }

  lemma {:induction false} InputListIff(b: seq<byte>, count: nat, s: seq<Input>, rest: seq<byte>)
    ensures ReadInputList(b, count) == Done(s, rest) <==>
            |s| == count && AreInputs(s) && NoWitness(s) && b == InputsData(s) + rest
    decreases count
  {
    hide ReadInput, InputData, IsInput;
    if count > 0 {
      if ReadInputList(b, count) == Done(s, rest) {
        var b1 := ReadInput(b).rest;
        InputIff(b, s[0], b1);
        InputListIff(b1, count - 1, s[1..], rest);
        assert s == [s[0]] + s[1..];
      }
      if |s| == count && AreInputs(s) && NoWitness(s) && b == InputsData(s) + rest {
        var b1 := InputsData(s[1..]) + rest;
        assert b == InputData(s[0]) + b1;
        InputIff(b, s[0], b1);
        InputListIff(b1, count - 1, s[1..], rest);
        assert s == [s[0]] + s[1..];
      }
    }
  }

  function OutputsData(s: seq<Output>): seq<byte> {
    if s == [] then [] else OutputData(s[0]) + OutputsData(s[1..])
  }

  function ReadOutputList(b: seq<byte>, count: nat): Parsed<seq<Output>>
    decreases count
  {
    if count == 0 then Done([], b)
    else
      match ReadOutput(b)
      case Fail => Fail
      case Done(output, b1) =>
        match ReadOutputList(b1, count - 1)
        case Fail => Fail
        case Done(outputs, rest) => Done([output] + outputs, rest)
  }

  ghost predicate AreOutputs(s: seq<Output>) {
    forall i :: 0 <= i < |s| ==> IsOutput(s[i])
  }

  lemma {:induction false} OutputListIff(b: seq<byte>, count: nat, s: seq<Output>, rest: seq<byte>)
    ensures ReadOutputList(b, count) == Done(s, rest) <==>
            |s| == count && AreOutputs(s) && b == OutputsData(s) + rest
    decreases count
  {
    hide ReadOutput, OutputData, IsOutput;
    if count > 0 {
      if ReadOutputList(b, count) == Done(s, rest) {
        var b1 := ReadOutput(b).rest;
        OutputIff(b, s[0], b1);
        OutputListIff(b1, count - 1, s[1..], rest);
        assert s == [s[0]] + s[1..];
      }
      if |s| == count && AreOutputs(s) && b == OutputsData(s) + rest {
        var b1 := OutputsData(s[1..]) + rest;
        assert b == OutputData(s[0]) + b1;
        OutputIff(b, s[0], b1);
        OutputListIff(b1, count - 1, s[1..], rest);
        assert s == [s[0]] + s[1..];
      }
    }
  }

  // ---- Counted lists ----

  function PutInputs(s: seq<Input>): seq<byte> {
    Variable(|s|) + InputsData(s)
  }

  function ReadInputs(b: seq<byte>): Parsed<seq<Input>> {
    match ReadSize(b, MAX_COUNT)
    case Fail => Fail
    case Done(count, b1) => ReadInputList(b1, count)
  }

  lemma {:induction false} InputsIff(b: seq<byte>, s: seq<Input>, rest: seq<byte>)
    ensures ReadInputs(b) == Done(s, rest) <==>
            |s| <= MAX_COUNT && AreInputs(s) && NoWitness(s) && b == PutInputs(s) + rest
  {
    hide ReadSize, ReadInputList, Variable, InputsData, AreInputs, NoWitness;
    var p := ReadSize(b, MAX_COUNT);
    if p.Done? {
      SizeIff(b, MAX_COUNT, p.value, p.rest);
      InputListIff(p.rest, p.value, s, rest);
    }
    assert PutInputs(s) + rest == Variable(|s|) + (InputsData(s) + rest);
    SizeIff(b, MAX_COUNT, |s|, InputsData(s) + rest);
    InputListIff(InputsData(s) + rest, |s|, s, rest);
  }

  function PutOutputs(s: seq<Output>): seq<byte> {
    Variable(|s|) + OutputsData(s)
  }

  function ReadOutputs(b: seq<byte>): Parsed<seq<Output>> {
    match ReadSize(b, MAX_COUNT)
    case Fail => Fail
    case Done(count, b1) => ReadOutputList(b1, count)
  }

  lemma {:induction false} OutputsIff(b: seq<byte>, s: seq<Output>, rest: seq<byte>)
    ensures ReadOutputs(b) == Done(s, rest) <==> |s| <= MAX_COUNT && AreOutputs(s) && b == PutOutputs(s) + rest
  {
    hide ReadSize, ReadOutputList, Variable, OutputsData, AreOutputs;
    var p := ReadSize(b, MAX_COUNT);
    if p.Done? {
      SizeIff(b, MAX_COUNT, p.value, p.rest);
      OutputListIff(p.rest, p.value, s, rest);
    }
    assert PutOutputs(s) + rest == Variable(|s|) + (OutputsData(s) + rest);
    SizeIff(b, MAX_COUNT, |s|, OutputsData(s) + rest);
    OutputListIff(OutputsData(s) + rest, |s|, s, rest);
  }

  // ---- Witnesses ----

  function ReadElement(b: seq<byte>): Parsed<seq<byte>> {
    match ReadSize(b, MAX_BYTES)
    case Fail => Fail
    case Done(size, rest) => ReadBytes(rest, size)
  }

  lemma {:induction false} ElementIff(b: seq<byte>, s: seq<byte>, rest: seq<byte>)
    ensures ReadElement(b) == Done(s, rest) <==> |s| <= MAX_BYTES && b == ScriptData(s) + rest
  {
    hide ReadSize, ReadBytes, Variable;
    var p := ReadSize(b, MAX_BYTES);
    if p.Done? {
      SizeIff(b, MAX_BYTES, p.value, p.rest);
      BytesIff(p.rest, p.value, s, rest);
    }
    assert ScriptData(s) + rest == Variable(|s|) + (s + rest);
    SizeIff(b, MAX_BYTES, |s|, s + rest);
    BytesIff(s + rest, |s|, s, rest);
  }

  function ElementsData(s: seq<seq<byte>>): seq<byte> {
    if s == [] then [] else ScriptData(s[0]) + ElementsData(s[1..])
  }

  function ReadElementList(b: seq<byte>, count: nat): Parsed<seq<seq<byte>>>
    decreases count
  {
    if count == 0 then Done([], b)
    else
      match ReadElement(b)
      case Fail => Fail
      case Done(element, b1) =>
        match ReadElementList(b1, count - 1)
        case Fail => Fail
        case Done(elements, rest) => Done([element] + elements, rest)
  }

  ghost predicate AreElements(s: seq<seq<byte>>) {
    forall i :: 0 <= i < |s| ==> |s[i]| <= MAX_BYTES
  }

  lemma {:induction false} ElementListIff(b: seq<byte>, count: nat, s: seq<seq<byte>>, rest: seq<byte>)
    ensures ReadElementList(b, count) == Done(s, rest) <==>
            |s| == count && AreElements(s) && b == ElementsData(s) + rest
    decreases count
  {
    hide ReadElement, ScriptData;
    if count > 0 {
      if ReadElementList(b, count) == Done(s, rest) {
        var b1 := ReadElement(b).rest;
        ElementIff(b, s[0], b1);
        ElementListIff(b1, count - 1, s[1..], rest);
        assert s == [s[0]] + s[1..];
      }
      if |s| == count && AreElements(s) && b == ElementsData(s) + rest {
        var b1 := ElementsData(s[1..]) + rest;
        assert b == ScriptData(s[0]) + b1;
        ElementIff(b, s[0], b1);
        ElementListIff(b1, count - 1, s[1..], rest);
        assert s == [s[0]] + s[1..];
      }
    }
  }

  function StackData(s: seq<seq<byte>>): seq<byte> {
    Variable(|s|) + ElementsData(s)
  }

  function ReadStack(b: seq<byte>): Parsed<seq<seq<byte>>> {
    match ReadSize(b, MAX_BYTES)
    case Fail => Fail
    case Done(count, b1) => ReadElementList(b1, count)
  }

  ghost predicate IsStack(s: seq<seq<byte>>) {
    |s| <= MAX_BYTES && AreElements(s)
  }

  lemma {:induction false} StackIff(b: seq<byte>, s: seq<seq<byte>>, rest: seq<byte>)
    ensures ReadStack(b) == Done(s, rest) <==> IsStack(s) && b == StackData(s) + rest
  {
    hide ReadSize, ReadElementList, Variable, ElementsData, AreElements;
    var p := ReadSize(b, MAX_BYTES);
    if p.Done? {
      SizeIff(b, MAX_BYTES, p.value, p.rest);
      ElementListIff(p.rest, p.value, s, rest);
    }
    assert StackData(s) + rest == Variable(|s|) + (ElementsData(s) + rest);
    SizeIff(b, MAX_BYTES, |s|, ElementsData(s) + rest);
    ElementListIff(ElementsData(s) + rest, |s|, s, rest);
  }

  /** Passes over the elements of a witness without reading them. */
  function SkipElementList(b: seq<byte>, count: nat): Parsed<()>
    decreases count
  {
    if count == 0 then Done((), b)
    else
      match ReadSize(b, MAX_BYTES)
      case Fail => Fail
      case Done(size, b1) => if size <= |b1| then SkipElementList(b1[size..], count - 1) else Fail
  }

  /** Whether the witness skipped has any element. */
  function SkipStack(b: seq<byte>): Parsed<bool> {
    match ReadSize(b, MAX_BYTES)
    case Fail => Fail
    case Done(count, b1) =>
      match SkipElementList(b1, count)
      case Fail => Fail
      case Done(_, rest) => Done(count != 0, rest)
  }

  lemma {:induction false} SkipListReads(b: seq<byte>, count: nat)
    ensures var p := ReadElementList(b, count);
      SkipElementList(b, count) == (if p.Done? then Done((), p.rest) else Fail) &&
      (p.Done? ==> |p.value| == count)
    decreases count
  {
    hide ReadSize;
    if count > 0 {
      var p := ReadElement(b);
      if p.Done? {
        SkipListReads(p.rest, count - 1);
      }
    }
  }

  /** Skipping consumes what reading consumes. */
  lemma {:induction false} SkipReads(b: seq<byte>)
    ensures var p := ReadStack(b);
      SkipStack(b) == if p.Done? then Done(p.value != [], p.rest) else Fail
  {
    hide ReadSize, SkipElementList, ReadElementList;
    var p := ReadSize(b, MAX_BYTES);
    if p.Done? {
      SkipListReads(p.rest, p.value);
    }
  }

  function Strip(i: Input): Input {
    i.(stack := [])
  }

  function StripAll(s: seq<Input>): (r: seq<Input>)
    ensures |r| == |s|
  {
    seq(|s|, i requires 0 <= i < |s| => Strip(s[i]))
  }

  function WitnessesData(s: seq<Input>): seq<byte> {
    if s == [] then [] else StackData(s[0].stack) + WitnessesData(s[1..])
  }

  ghost predicate AreStacks(s: seq<Input>) {
    forall i :: 0 <= i < |s| ==> IsStack(s[i].stack)
  }

  /** Assigns the witness of each input. */
  function ReadWitnesses(b: seq<byte>, inputs: seq<Input>): Parsed<seq<Input>>
    decreases |inputs|
  {
    if inputs == [] then Done([], b)
    else
      match ReadStack(b)
      case Fail => Fail
      case Done(stack, b1) =>
        match ReadWitnesses(b1, inputs[1..])
        case Fail => Fail
        case Done(rest, b2) => Done([inputs[0].(stack := stack)] + rest, b2)
  }

  lemma {:induction false} WitnessesReads(s: seq<Input>, inputs: seq<Input>, rest: seq<byte>)
    requires StripAll(s) == StripAll(inputs) && AreStacks(s)
    ensures ReadWitnesses(WitnessesData(s) + rest, inputs) == Done(s, rest)
    decreases |s|
  {
    hide ReadStack, StackData, IsStack;
    if s != [] {
      var b := WitnessesData(s) + rest;
      var b1 := WitnessesData(s[1..]) + rest;
      assert b == StackData(s[0].stack) + b1;
      StackIff(b, s[0].stack, b1);
      assert StripAll(s)[1..] == StripAll(s[1..]) && StripAll(inputs)[1..] == StripAll(inputs[1..]);
      WitnessesReads(s[1..], inputs[1..], rest);
      assert StripAll(s)[0] == Strip(s[0]) && StripAll(inputs)[0] == Strip(inputs[0]);
      assert s == [s[0]] + s[1..];
    } else {
      assert |StripAll(inputs)| == 0;
    }
  }

  lemma {:induction false} StripFirst(s: seq<Input>)
    requires s != []
    ensures StripAll(s) == [Strip(s[0])] + StripAll(s[1..])
  {
  }

  lemma {:induction false} WitnessesIff(b: seq<byte>, inputs: seq<Input>, s: seq<Input>, rest: seq<byte>)
    ensures ReadWitnesses(b, inputs) == Done(s, rest) <==>
            StripAll(s) == StripAll(inputs) && AreStacks(s) && b == WitnessesData(s) + rest
    decreases |inputs|
  {
    hide ReadStack, StackData, IsStack;
    if ReadWitnesses(b, inputs) == Done(s, rest) && inputs != [] {
      var p := ReadStack(b);
      StackIff(b, p.value, p.rest);
      WitnessesIff(p.rest, inputs[1..], s[1..], rest);
      StripFirst(s);
      StripFirst(inputs);
      hide StripAll;
    }
    if StripAll(s) == StripAll(inputs) && AreStacks(s) && b == WitnessesData(s) + rest {
      WitnessesReads(s, inputs, rest);
    }
  }

  /** Whether any witness skipped has an element. */
  function SkipWitnesses(b: seq<byte>, count: nat): Parsed<bool>
    decreases count
  {
    if count == 0 then Done(false, b)
    else
      match SkipStack(b)
      case Fail => Fail
      case Done(some, b1) =>
        match SkipWitnesses(b1, count - 1)
        case Fail => Fail
        case Done(more, rest) => Done(some || more, rest)
  }

  predicate Segregated(inputs: seq<Input>) {
    exists i :: 0 <= i < |inputs| && inputs[i].stack != []
  }

  lemma {:induction false} SkipWitnessesReads(b: seq<byte>, inputs: seq<Input>)
    ensures var p := ReadWitnesses(b, inputs);
      SkipWitnesses(b, |inputs|) == if p.Done? then Done(Segregated(p.value), p.rest) else Fail
    decreases |inputs|
  {
    hide ReadStack, SkipStack;
    if inputs != [] {
      SkipReads(b);
      var p := ReadStack(b);
      if p.Done? {
        SkipWitnessesReads(p.rest, inputs[1..]);
        var q := ReadWitnesses(p.rest, inputs[1..]);
        if q.Done? {
          SegregatedFirst(inputs[0].(stack := p.value), q.value);
        }
      }
    }
  }

  lemma {:induction false} SegregatedFirst(first: Input, rest: seq<Input>)
    ensures Segregated([first] + rest) <==> first.stack != [] || Segregated(rest)
  {
    var s := [first] + rest;
    if first.stack != [] {
      assert s[0].stack != [];
    }
    if i :| 0 <= i < |rest| && rest[i].stack != [] {
      assert s[i + 1].stack != [];
    }
  }

  // ---- Transactions ----

  ghost predicate IsTransaction(tx: Transaction) {
    && tx.version < Pow256(4) && tx.locktime < Pow256(4)
    && |tx.inputs| <= MAX_COUNT && AreInputs(tx.inputs) && AreStacks(tx.inputs)
    && |tx.outputs| <= MAX_COUNT && AreOutputs(tx.outputs)
    && tx.segregated == Segregated(tx.inputs)
  }

  /** Inputs, outputs and, if asked for, witnesses between the version and the locktime. */
  function Body(tx: Transaction, witnessed: bool): seq<byte> {
    (if witnessed then [WITNESS_MARKER, WITNESS_ENABLED] else []) + PutInputs(tx.inputs) + PutOutputs(tx.outputs) +
    (if witnessed then WitnessesData(tx.inputs) else [])
  }

  /** A transaction without witnesses has but one serialization. */
  function TransactionData(tx: Transaction, witnessed: bool): seq<byte> {
    ToLittleEndian(tx.version, 4) + Body(tx, witnessed && tx.segregated) + ToLittleEndian(tx.locktime, 4)
  }

  function ReadWitnessed(b: seq<byte>, version: nat, witnessed: bool): Parsed<Transaction> {
    match ReadInputs(b)
    case Fail => Fail
    case Done(inputs, b1) =>
      match ReadOutputs(b1)
      case Fail => Fail
      case Done(outputs, b2) =>
        if witnessed then
          match ReadWitnesses(b2, inputs)
          case Fail => Fail
          case Done(signed, b3) =>
            if Segregated(signed) then ReadLocktime(b3, Transaction(version, signed, outputs, 0, true)) else Fail
        else
          match SkipWitnesses(b2, |inputs|)
          case Fail => Fail
          case Done(some, b3) =>
            if some then ReadLocktime(b3, Transaction(version, inputs, outputs, 0, false)) else Fail
  }

  function ReadNominal(b: seq<byte>, version: nat, inputs: seq<Input>): Parsed<Transaction> {
    match ReadOutputs(b)
    case Fail => Fail
    case Done(outputs, b1) => ReadLocktime(b1, Transaction(version, inputs, outputs, 0, false))
  }

  function ReadLocktime(b: seq<byte>, tx: Transaction): Parsed<Transaction> {
    match ReadLittle(b, 4)
    case Fail => Fail
    case Done(locktime, rest) => Done(tx.(locktime := locktime), rest)
  }

  /** No inputs and then the flag announce witnesses. */
  function ReadTransaction(b: seq<byte>, witnessed: bool): Parsed<Transaction> {
    match ReadLittle(b, 4)
    case Fail => Fail
    case Done(version, b1) =>
      match ReadInputs(b1)
      case Fail => Fail
      case Done(inputs, b2) =>
        if inputs == [] && b2 != [] && b2[0] == WITNESS_ENABLED then ReadWitnessed(b2[1..], version, witnessed)
        else ReadNominal(b2, version, inputs)
  }

  /** A transaction that its own serialization announces to have witnesses. */
  predicate Ambiguous(tx: Transaction) {
    tx.inputs == [] && |tx.outputs| == 1
  }

  lemma {:induction false} LocktimeIff(b: seq<byte>, partial: Transaction, tx: Transaction, rest: seq<byte>)
    ensures ReadLocktime(b, partial) == Done(tx, rest) <==>
            tx == partial.(locktime := tx.locktime) && tx.locktime < Pow256(4) &&
            b == ToLittleEndian(tx.locktime, 4) + rest
  {
    hide ReadLittle, ToLittleEndian, Pow256;
    LittleIff(b, 4, tx.locktime, rest);
  }

  lemma {:induction false} NoWitnessStripped(s: seq<Input>)
    requires NoWitness(s)
    ensures StripAll(s) == s && AreStacks(s) && !Segregated(s)
  {
    forall i | 0 <= i < |s|
      ensures StripAll(s)[i] == s[i]
    {
      assert s[i].stack == [];
    }
  }

  lemma {:induction false} PutStripped(s: seq<Input>)
    ensures PutInputs(StripAll(s)) == PutInputs(s) && NoWitness(StripAll(s)) && StripAll(StripAll(s)) == StripAll(s)
    ensures AreInputs(StripAll(s)) <==> AreInputs(s)
  {
    hide Variable, InputsData;
    InputsStripped(s);
    forall i | 0 <= i < |s|
      ensures IsInput(StripAll(s)[i]) <==> IsInput(s[i])
    {
    }
  }

  lemma {:induction false} InputsStripped(s: seq<Input>)
    ensures InputsData(StripAll(s)) == InputsData(s)
    decreases |s|
  {
    if s != [] {
      InputsStripped(s[1..]);
      assert StripAll(s)[1..] == StripAll(s[1..]);
      assert InputData(StripAll(s)[0]) == InputData(s[0]);
      hide InputData, StripAll;
    }
  }

  /** What follows the flag is read back exactly. */
  lemma {:induction false} WitnessedIff(b: seq<byte>, version: nat, tx: Transaction, rest: seq<byte>)
    requires version < Pow256(4)
    ensures ReadWitnessed(b, version, true) == Done(tx, rest) <==>
            IsTransaction(tx) && tx.segregated && tx.version == version &&
            b == PutInputs(tx.inputs) + PutOutputs(tx.outputs) + WitnessesData(tx.inputs) +
                 ToLittleEndian(tx.locktime, 4) + rest
  {
    hide ReadInputs, ReadOutputs, ReadWitnesses, ReadLocktime, PutInputs, PutOutputs, WitnessesData, ToLittleEndian;
    hide Pow256, AreInputs, AreOutputs, AreStacks, Segregated, NoWitness, StripAll;
    PutStripped(tx.inputs);
    if ReadWitnessed(b, version, true) == Done(tx, rest) {
      var p := ReadInputs(b);
      InputsIff(b, p.value, p.rest);
      var q := ReadOutputs(p.rest);
      OutputsIff(p.rest, q.value, q.rest);
      var w := ReadWitnesses(q.rest, p.value);
      WitnessesIff(q.rest, p.value, w.value, w.rest);
      LocktimeIff(w.rest, Transaction(version, w.value, q.value, 0, true), tx, rest);
      NoWitnessStripped(p.value);
      StripLength(tx.inputs, p.value);
    }
    if IsTransaction(tx) && tx.segregated && tx.version == version &&
       b == PutInputs(tx.inputs) + PutOutputs(tx.outputs) + WitnessesData(tx.inputs) +
            ToLittleEndian(tx.locktime, 4) + rest {
      WitnessedReads(b, tx, rest);
    }
  }

  lemma {:induction false} StripLength(s: seq<Input>, t: seq<Input>)
    requires StripAll(s) == StripAll(t)
    ensures |s| == |t|
  {
  }

  lemma {:induction false} WitnessedReads(b: seq<byte>, tx: Transaction, rest: seq<byte>)
    requires IsTransaction(tx) && tx.segregated
    requires b == PutInputs(tx.inputs) + PutOutputs(tx.outputs) + WitnessesData(tx.inputs) +
                  ToLittleEndian(tx.locktime, 4) + rest
    ensures ReadWitnessed(b, tx.version, true) == Done(tx, rest)
  {
    hide ReadInputs, ReadOutputs, ReadWitnesses, ReadLocktime, PutInputs, PutOutputs, WitnessesData, ToLittleEndian;
    hide Pow256, AreInputs, AreOutputs, AreStacks, Segregated, NoWitness;
    PutStripped(tx.inputs);
    var inputs := StripAll(tx.inputs);
    var b3 := ToLittleEndian(tx.locktime, 4) + rest;
    var b2 := WitnessesData(tx.inputs) + b3;
    var b1 := PutOutputs(tx.outputs) + b2;
    assert b == PutInputs(inputs) + b1;
    InputsIff(b, inputs, b1);
    OutputsIff(b1, tx.outputs, b2);
    WitnessesIff(b2, inputs, tx.inputs, b3);
    LocktimeIff(b3, Transaction(tx.version, tx.inputs, tx.outputs, 0, true), tx, rest);
  }

  lemma {:induction false} NominalIff(b: seq<byte>, version: nat, inputs: seq<Input>, tx: Transaction, rest: seq<byte>)
    requires version < Pow256(4) && |inputs| <= MAX_COUNT && AreInputs(inputs) && NoWitness(inputs)
    ensures ReadNominal(b, version, inputs) == Done(tx, rest) <==>
            IsTransaction(tx) && !tx.segregated && tx.version == version && tx.inputs == inputs &&
            b == PutOutputs(tx.outputs) + ToLittleEndian(tx.locktime, 4) + rest
  {
    hide ReadOutputs, ReadLocktime, PutOutputs, ToLittleEndian, Pow256, AreInputs, AreOutputs, AreStacks, Segregated;
    NoWitnessStripped(inputs);
    var p := ReadOutputs(b);
    if p.Done? {
      OutputsIff(b, p.value, p.rest);
      LocktimeIff(p.rest, Transaction(version, inputs, p.value, 0, false), tx, rest);
    }
    var b1 := ToLittleEndian(tx.locktime, 4) + rest;
    assert PutOutputs(tx.outputs) + ToLittleEndian(tx.locktime, 4) + rest == PutOutputs(tx.outputs) + b1;
    OutputsIff(b, tx.outputs, b1);
    LocktimeIff(b1, Transaction(version, inputs, tx.outputs, 0, false), tx, rest);
  }

  lemma {:induction false} FirstByte(outputs: seq<Output>)
    ensures |PutOutputs(outputs)| > 0 && (PutOutputs(outputs)[0] == WITNESS_ENABLED <==> |outputs| == 1)
  {
    hide OutputsData, ToLittleEndian;
  }

  lemma {:induction false} MarkerIsNoInputs()
    ensures PutInputs([]) == [WITNESS_MARKER]
  {
  }

  lemma {:induction false} SegregatedSome(inputs: seq<Input>)
    requires Segregated(inputs)
    ensures inputs != []
  {
  }

  /** Serialization is read back, and nothing else is accepted. */
  lemma {:induction false} ReadIff(b: seq<byte>, tx: Transaction, rest: seq<byte>)
    ensures ReadTransaction(b, true) == Done(tx, rest) <==>
            IsTransaction(tx) && !Ambiguous(tx) && b == TransactionData(tx, true) + rest
  {
    if ReadTransaction(b, true) == Done(tx, rest) {
      ReadAccepts(b, tx, rest);
    }
    if IsTransaction(tx) && !Ambiguous(tx) && b == TransactionData(tx, true) + rest {
      if tx.segregated {
        ReadSegregated(tx, rest);
      } else {
        ReadUnsegregated(tx, rest);
      }
    }
  }

  /** The parts of a serialization in the order they are read. */
  lemma {:induction false} NominalParts(tx: Transaction, rest: seq<byte>)
    requires !tx.segregated
    ensures var b2 := PutOutputs(tx.outputs) + ToLittleEndian(tx.locktime, 4) + rest;
      TransactionData(tx, true) + rest == ToLittleEndian(tx.version, 4) + (PutInputs(tx.inputs) + b2)
  {
    hide PutInputs, PutOutputs, ToLittleEndian;
  }

  lemma {:induction false} WitnessedParts(tx: Transaction, rest: seq<byte>)
    requires tx.segregated
    ensures var tail := PutInputs(tx.inputs) + PutOutputs(tx.outputs) + WitnessesData(tx.inputs) +
                        ToLittleEndian(tx.locktime, 4) + rest;
      TransactionData(tx, true) + rest ==
      ToLittleEndian(tx.version, 4) + ([WITNESS_MARKER] + ([WITNESS_ENABLED] + tail))
  {
    hide PutInputs, PutOutputs, WitnessesData, ToLittleEndian;
  }

  lemma {:induction false} ReadAccepts(b: seq<byte>, tx: Transaction, rest: seq<byte>)
    requires ReadTransaction(b, true) == Done(tx, rest)
    ensures IsTransaction(tx) && !Ambiguous(tx) && b == TransactionData(tx, true) + rest
  {
    hide ReadLittle, ReadInputs, ReadWitnessed, ReadNominal, PutInputs, PutOutputs, WitnessesData, ToLittleEndian;
    hide Pow256, AreInputs, AreOutputs, AreStacks, Segregated, NoWitness, TransactionData, IsTransaction;
    var v := ReadLittle(b, 4);
    LittleIff(b, 4, v.value, v.rest);
    var p := ReadInputs(v.rest);
    InputsIff(v.rest, p.value, p.rest);
    var b2 := p.rest;
    if p.value == [] && b2 != [] && b2[0] == WITNESS_ENABLED {
      WitnessedIff(b2[1..], v.value, tx, rest);
      WitnessedParts(tx, rest);
      IsSegregated(tx);
      SegregatedSome(tx.inputs);
      MarkerIsNoInputs();
      assert b2 == [WITNESS_ENABLED] + b2[1..];
    } else {
      NominalIff(b2, v.value, p.value, tx, rest);
      NominalParts(tx, rest);
      FirstByte(tx.outputs);
      FirstOf(PutOutputs(tx.outputs), ToLittleEndian(tx.locktime, 4), rest);
    }
  }

  lemma {:induction false} IsSegregated(tx: Transaction)
    requires IsTransaction(tx)
    ensures tx.segregated == Segregated(tx.inputs)
  {
  }

  lemma {:induction false} FirstOf(a: seq<byte>, b: seq<byte>, c: seq<byte>)
    requires a != []
    ensures |a + b + c| > 0 && (a + b + c)[0] == a[0]
  {
  }

  lemma {:induction false} ReadSegregated(tx: Transaction, rest: seq<byte>)
    requires IsTransaction(tx) && tx.segregated
    ensures ReadTransaction(TransactionData(tx, true) + rest, true) == Done(tx, rest)
  {
    hide ReadLittle, ReadInputs, ReadWitnessed, ReadNominal, PutInputs, PutOutputs, WitnessesData, ToLittleEndian;
    hide Pow256, AreInputs, AreOutputs, AreStacks, Segregated, NoWitness;
    var b := TransactionData(tx, true) + rest;
    var tail := PutInputs(tx.inputs) + PutOutputs(tx.outputs) + WitnessesData(tx.inputs) +
                ToLittleEndian(tx.locktime, 4) + rest;
    var b2 := [WITNESS_ENABLED] + tail;
    var b1 := [WITNESS_MARKER] + b2;
    assert b == ToLittleEndian(tx.version, 4) + b1;
    LittleIff(b, 4, tx.version, b1);
    MarkerIsNoInputs();
    NoInputs();
    InputsIff(b1, [], b2);
    assert b2[1..] == tail;
    WitnessedIff(tail, tx.version, tx, rest);
  }

  lemma {:induction false} NoInputs()
    ensures AreInputs([]) && NoWitness([])
  {
  }

  lemma {:induction false} ReadUnsegregated(tx: Transaction, rest: seq<byte>)
    requires IsTransaction(tx) && !tx.segregated && !Ambiguous(tx)
    ensures ReadTransaction(TransactionData(tx, true) + rest, true) == Done(tx, rest)
  {
    Unwitnessed(tx.inputs);
    hide ReadLittle, ReadInputs, ReadWitnessed, ReadNominal, PutInputs, PutOutputs, WitnessesData, ToLittleEndian;
    hide Pow256, AreInputs, AreOutputs, AreStacks, Segregated, NoWitness;
    hide TransactionData;
    NominalParts(tx, rest);
    var b2 := PutOutputs(tx.outputs) + ToLittleEndian(tx.locktime, 4) + rest;
    var b1 := PutInputs(tx.inputs) + b2;
    LittleIff(TransactionData(tx, true) + rest, 4, tx.version, b1);
    InputsIff(b1, tx.inputs, b2);
    NominalIff(b2, tx.version, tx.inputs, tx, rest);
    FirstByte(tx.outputs);
    FirstOf(PutOutputs(tx.outputs), ToLittleEndian(tx.locktime, 4), rest);
  }

  lemma {:induction false} Unwitnessed(inputs: seq<Input>)
    requires !Segregated(inputs)
    ensures NoWitness(inputs)
  {
    forall i | 0 <= i < |inputs|
      ensures inputs[i].stack == []
    {
    }
  }

  /** The serialization of one output alone is not read back. */
  lemma {:induction false} OneOutputMisread(rest: seq<byte>)
    ensures var tx := Transaction(1, [], [Output(0, [])], 0, false);
      IsTransaction(tx) && ReadTransaction(TransactionData(tx, true) + rest, true) != Done(tx, rest)
  {
    hide ReadTransaction, TransactionData;
    var tx := Transaction(1, [], [Output(0, [])], 0, false);
    ReadIff(TransactionData(tx, true) + rest, tx, rest);
    Powers();
    hide Pow256;
  }

  function Nominal(tx: Transaction): Transaction {
    tx.(inputs := StripAll(tx.inputs), segregated := false)
  }

  /** Without witnesses the same bytes are accepted and consumed, for the nominal transaction. */
  lemma {:induction false} ReadNominally(b: seq<byte>)
    ensures var p := ReadTransaction(b, true);
      ReadTransaction(b, false) == if p.Done? then Done(Nominal(p.value), p.rest) else Fail
  {
    hide ReadLittle, ReadOutputs, ReadWitnesses, SkipWitnesses, Segregated, ReadInputs;
    var v := ReadLittle(b, 4);
    if v.Done? {
      var p := ReadInputs(v.rest);
      if p.Done? {
        InputsIff(v.rest, p.value, p.rest);
        NoWitnessStripped(p.value);
        if p.value == [] && p.rest != [] && p.rest[0] == WITNESS_ENABLED {
          ReadWitnessedNominally(p.rest[1..], v.value);
        }
      }
    }
  }

  lemma {:induction false} ReadWitnessedNominally(b: seq<byte>, version: nat)
    ensures var p := ReadWitnessed(b, version, true);
      ReadWitnessed(b, version, false) == if p.Done? then Done(Nominal(p.value), p.rest) else Fail
  {
    hide ReadLittle, ReadOutputs, ReadWitnesses, SkipWitnesses, Segregated, ReadInputs;
    var p := ReadInputs(b);
    if p.Done? {
      InputsIff(b, p.value, p.rest);
      NoWitnessStripped(p.value);
      var q := ReadOutputs(p.rest);
      if q.Done? {
        SkipWitnessesReads(q.rest, p.value);
        var w := ReadWitnesses(q.rest, p.value);
        if w.Done? {
          WitnessesIff(q.rest, p.value, w.value, w.rest);
        }
      }
    }
  }

  /** The parts of a transaction at their places: four bytes of version, the marker and flag of BIP144 if
      it has witnesses, counted inputs, counted outputs, witnesses, and four bytes of locktime. */
  lemma {:induction false} TransactionFields(tx: Transaction, witnessed: bool)
    requires IsTransaction(tx)
    ensures var b, marked := TransactionData(tx, witnessed), witnessed && tx.segregated;
      var inputs := Variable(|tx.inputs|) + InputsData(tx.inputs);
      var outputs := Variable(|tx.outputs|) + OutputsData(tx.outputs);
      var from := if marked then 6 else 4;
      var middle, last := from + |inputs|, from + |inputs| + |outputs|;
      && last + 4 <= |b| && LittleEndian(b[..4]) == tx.version && LittleEndian(b[|b| - 4..]) == tx.locktime
      && (marked ==> b[4] == 0 && b[5] == 1)
      && b[from..middle] == inputs && b[middle..last] == outputs
      && b[last..|b| - 4] == if marked then WitnessesData(tx.inputs) else []
  {
    hide Variable, InputsData, OutputsData, WitnessesData, LittleEndian, ToLittleEndian, Pow256, AreInputs, AreOutputs;
    ReadWrite(tx.version, 4);
    ReadWrite(tx.locktime, 4);
    var b := TransactionData(tx, witnessed);
    assert b[..4] == ToLittleEndian(tx.version, 4) && b[|b| - 4..] == ToLittleEndian(tx.locktime, 4);
  }

  /** What a transaction satisfies to be read, in numbers. */
  lemma {:induction false} WellFormedIff(tx: Transaction)
    ensures IsTransaction(tx) <==>
            && tx.version < 0x1_0000_0000 && tx.locktime < 0x1_0000_0000
            && |tx.inputs| <= 1_000_000 && |tx.outputs| <= 1_000_000
            && (forall i :: 0 <= i < |tx.inputs| ==> InputFits(tx.inputs[i]))
            && (forall i :: 0 <= i < |tx.outputs| ==> OutputFits(tx.outputs[i]))
            && (tx.segregated <==> exists i :: 0 <= i < |tx.inputs| && tx.inputs[i].stack != [])
  {
    Powers();
    hide Pow256;
  }

  /** An input of 32 bytes of hash and two words, with at most so many elements of at most so many bytes. */
  ghost predicate InputFits(i: Input) {
    && |i.point.hash| == 32 && i.point.index < 0x1_0000_0000 && i.sequence < 0x1_0000_0000
    && |i.script| < 0x1_0000_0000_0000_0000 && |i.stack| <= 4_000_000
    && forall k :: 0 <= k < |i.stack| ==> |i.stack[k]| <= 4_000_000
  }

  ghost predicate OutputFits(o: Output) {
    o.value < 0x1_0000_0000_0000_0000 && |o.script| < 0x1_0000_0000_0000_0000
  }
}
