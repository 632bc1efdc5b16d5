/** Serialization of a transaction to a sink that is appended to step by step. */
module TransactionWriter {
  import opened Words
  import opened Wire
  import opened TransactionCodec

  class Writer {
    var data: seq<byte>

    constructor ()
      ensures data == []
    {
      data := [];
    }

    method WriteBytes(bytes: seq<byte>)
      modifies this
      ensures data == old(data) + bytes
    {
      data := data + bytes;
    }

    /** Appends a witness: its count of elements and then each with its size. */
    method WriteStack(stack: seq<seq<byte>>)
      modifies this
      ensures data == old(data) + StackData(stack)
    {
      hide Variable, ScriptData;
      WriteBytes(Variable(|stack|));
      ghost var start := data;
      assert stack[0..] == stack && start + ElementsData(stack) == old(data) + StackData(stack);
      var i: nat := 0;
      while i < |stack|
        invariant i <= |stack| && data + ElementsData(stack[i..]) == start + ElementsData(stack)
      {
        assert stack[i..][1..] == stack[i + 1..];
        WriteBytes(ScriptData(stack[i]));
        i := i + 1;
      }
      assert ElementsData(stack[i..]) == [] && data + [] == data;
    }

    method WriteInputs(inputs: seq<Input>)
      modifies this
      ensures data == old(data) + PutInputs(inputs)
    {
      hide Variable, InputData;
      WriteBytes(Variable(|inputs|));
      ghost var start := data;
      assert inputs[0..] == inputs && start + InputsData(inputs) == old(data) + PutInputs(inputs);
      var i: nat := 0;
      while i < |inputs|
        invariant i <= |inputs| && data + InputsData(inputs[i..]) == start + InputsData(inputs)
      {
        assert inputs[i..][1..] == inputs[i + 1..];
        WriteBytes(InputData(inputs[i]));
        i := i + 1;
      }
      assert InputsData(inputs[i..]) == [] && data + [] == data;
    }

    method WriteOutputs(outputs: seq<Output>)
      modifies this
      ensures data == old(data) + PutOutputs(outputs)
    {
      hide Variable, OutputData;
      WriteBytes(Variable(|outputs|));
      ghost var start := data;
      assert outputs[0..] == outputs && start + OutputsData(outputs) == old(data) + PutOutputs(outputs);
      var i: nat := 0;
      while i < |outputs|
        invariant i <= |outputs| && data + OutputsData(outputs[i..]) == start + OutputsData(outputs)
      {
        assert outputs[i..][1..] == outputs[i + 1..];
        WriteBytes(OutputData(outputs[i]));
        i := i + 1;
      }
      assert OutputsData(outputs[i..]) == [] && data + [] == data;
    }

    method WriteWitnesses(inputs: seq<Input>)
      modifies this
      ensures data == old(data) + WitnessesData(inputs)
    {
      hide StackData;
      ghost var start := data;
      assert inputs[0..] == inputs;
      var i: nat := 0;
      while i < |inputs|
        invariant i <= |inputs| && data + WitnessesData(inputs[i..]) == start + WitnessesData(inputs)
      {
        assert inputs[i..][1..] == inputs[i + 1..];
        WriteStack(inputs[i].stack);
        i := i + 1;
      }
      assert WitnessesData(inputs[i..]) == [] && data + [] == data;
    }

    method WriteTransaction(tx: Transaction, witnessed: bool)
      modifies this
      ensures data == old(data) + TransactionData(tx, witnessed)
    {
      hide PutInputs, PutOutputs, WitnessesData, ToLittleEndian;
      var both := witnessed && tx.segregated;
      WriteBytes(ToLittleEndian(tx.version, 4));
      if both {
        WriteBytes([WITNESS_MARKER, WITNESS_ENABLED]);
      }
      WriteInputs(tx.inputs);
      WriteOutputs(tx.outputs);
      if both {
        WriteWitnesses(tx.inputs);
      }
      WriteBytes(ToLittleEndian(tx.locktime, 4));
    }
  }
}
