/** Deserialization of a transaction from a stream that is consumed step by step, and that stays
    invalid once it is. */
module TransactionReader {
  import opened Common
  import opened Words
  import opened Wire
  import opened TransactionCodec

  class Reader {
    var rest: seq<byte>
    var valid: bool

    constructor (data: seq<byte>)
      ensures valid && rest == data
    {
      rest, valid := data, true;
    }

    /** The state after reading what a parser reads. */
    ghost predicate Took<T>(ok: bool, parsed: Parsed<T>, value: T)
      reads this
    {
      valid == (ok && parsed.Done?) && (valid ==> value == parsed.value && rest == parsed.rest)
    }

    method Advance<T>(parsed: Parsed<T>, default: T) returns (value: T)
      modifies this
      ensures Took(old(valid), parsed, value)
      ensures !valid ==> value == default
    {
      if valid && parsed.Done? {
        value, rest := parsed.value, parsed.rest;
      } else {
        value, valid := default, false;
      }
    }

    method Invalidate()
      modifies this
      ensures !valid
    {
      valid := false;
    }

    /** The byte at the front, without advancing: at the end the stream becomes invalid. */
    method PeekByte() returns (b: byte)
      modifies this
      ensures valid == (old(valid) && rest != []) && rest == old(rest)
      ensures b == if valid then rest[0] else 0
    {
      if valid && rest != [] {
        b := rest[0];
      } else {
        b, valid := 0, false;
      }
    }

    method SkipBytes(count: nat)
      modifies this
      ensures valid == (old(valid) && count <= old(|rest|))
      ensures valid ==> rest == old(rest)[count..]
    {
      if valid && count <= |rest| {
        rest := rest[count..];
      } else {
        valid := false;
      }
    }
  }

  const NO_INPUT: Input := Input(Point([], 0), [], 0, [])
  const NO_OUTPUT: Output := Output(0, [])

  /** What a list parser still has to yield, after some of its elements. */
  ghost function Continued<T>(done: seq<T>, parsed: Parsed<seq<T>>): Parsed<seq<T>> {
    match parsed
    case Fail => Fail
    case Done(more, rest) => Done(done + more, rest)
  }

  lemma {:induction false} NoneContinued<T>(parsed: Parsed<seq<T>>)
    ensures Continued([], parsed) == parsed
  {
    if parsed.Done? {
      assert [] + parsed.value == parsed.value;
    }
  }

  lemma {:induction false} OneContinued<T>(done: seq<T>, x: T, parsed: Parsed<seq<T>>)
    ensures Continued(done, Continued([x], parsed)) == Continued(done + [x], parsed)
  {
    if parsed.Done? {
      assert done + ([x] + parsed.value) == done + [x] + parsed.value;
    }
  }

  /** Whether a loop over a list, of which the rest is to be parsed, amounts to parsing the list. */
  ghost predicate Continues<T(!new)>(ok: bool, whole: Parsed<seq<T>>, valid: bool, done: seq<T>, parsed: Parsed<seq<T>>) {
    if valid then ok && whole == Continued(done, parsed) else !ok || whole.Fail?
  }

  lemma {:induction false} FailContinued<T>(done: seq<T>)
    ensures Continued(done, Fail) == Fail
  {
  }

  lemma {:induction false} DoneContinued<T>(done: seq<T>, rest: seq<byte>)
    ensures Continued(done, Done([], rest)) == Done(done, rest)
  {
    assert done + [] == done;
  }

  method ReadInputsFrom(source: Reader) returns (puts: seq<Input>)
    modifies source
    ensures source.Took(old(source.valid), ReadInputs(old(source.rest)), puts)
  {
    hide ReadSize, ReadInput;
    var count := source.Advance(ReadSize(source.rest, MAX_COUNT), 0);
    puts := [];
    ghost var ok, whole := source.valid, ReadInputList(source.rest, count);
    NoneContinued(whole);
    var put: nat := 0;
    while put < count
      invariant put <= count && Continues(ok, whole, source.valid, puts, ReadInputList(source.rest, count - put))
    {
      hide Continued;
      ghost var parsed := ReadInput(source.rest);
      ReadInputListNext(source.rest, count - put);
      var next := source.Advance(ReadInput(source.rest), NO_INPUT);
      if source.valid {
        OneContinued(puts, next, ReadInputList(source.rest, count - put - 1));
      } else {
        FailContinued(puts);
      }
      puts := puts + [next];
      put := put + 1;
    }
    DoneContinued(puts, source.rest);
  }

  lemma {:induction false} ReadInputListNext(b: seq<byte>, count: nat)
    requires count > 0
    ensures var p := ReadInput(b);
      ReadInputList(b, count) == if p.Done? then Continued([p.value], ReadInputList(p.rest, count - 1)) else Fail
  {
  }

  method ReadOutputsFrom(source: Reader) returns (puts: seq<Output>)
    modifies source
    ensures source.Took(old(source.valid), ReadOutputs(old(source.rest)), puts)
  {
    hide ReadSize, ReadOutput;
    var count := source.Advance(ReadSize(source.rest, MAX_COUNT), 0);
    puts := [];
    ghost var ok, whole := source.valid, ReadOutputList(source.rest, count);
    NoneContinued(whole);
    var put: nat := 0;
    while put < count
      invariant put <= count && Continues(ok, whole, source.valid, puts, ReadOutputList(source.rest, count - put))
    {
      hide Continued;
      ghost var parsed := ReadOutput(source.rest);
      ReadOutputListNext(source.rest, count - put);
      var next := source.Advance(ReadOutput(source.rest), NO_OUTPUT);
      if source.valid {
        OneContinued(puts, next, ReadOutputList(source.rest, count - put - 1));
      } else {
        FailContinued(puts);
      }
      puts := puts + [next];
      put := put + 1;
    }
    DoneContinued(puts, source.rest);
  }

  lemma {:induction false} ReadOutputListNext(b: seq<byte>, count: nat)
    requires count > 0
    ensures var p := ReadOutput(b);
      ReadOutputList(b, count) == if p.Done? then Continued([p.value], ReadOutputList(p.rest, count - 1)) else Fail
  {
  }

  method ReadStackFrom(source: Reader) returns (puts: seq<seq<byte>>)
    modifies source
    ensures source.Took(old(source.valid), ReadStack(old(source.rest)), puts)
  {
    hide ReadSize, ReadElement;
    var count := source.Advance(ReadSize(source.rest, MAX_BYTES), 0);
    puts := [];
    ghost var ok, whole := source.valid, ReadElementList(source.rest, count);
    NoneContinued(whole);
    var put: nat := 0;
    while put < count
      invariant put <= count && Continues(ok, whole, source.valid, puts, ReadElementList(source.rest, count - put))
    {
      hide Continued;
      ghost var parsed := ReadElement(source.rest);
      ReadElementListNext(source.rest, count - put);
      var next := source.Advance(ReadElement(source.rest), []);
      if source.valid {
        OneContinued(puts, next, ReadElementList(source.rest, count - put - 1));
      } else {
        FailContinued(puts);
      }
      puts := puts + [next];
      put := put + 1;
    }
    DoneContinued(puts, source.rest);
  }

  lemma {:induction false} ReadElementListNext(b: seq<byte>, count: nat)
    requires count > 0
    ensures var p := ReadElement(b);
      ReadElementList(b, count) == if p.Done? then Continued([p.value], ReadElementList(p.rest, count - 1)) else Fail
  {
  }

  /** Passes over a witness, and tells whether it has any element. */
  method SkipStackFrom(source: Reader) returns (some: bool)
    modifies source
    ensures source.Took(old(source.valid), SkipStack(old(source.rest)), some)
  {
    hide ReadSize;
    var count := source.Advance(ReadSize(source.rest, MAX_BYTES), 0);
    ghost var ok, whole := source.valid, SkipElementList(source.rest, count);
    var element: nat := 0;
    while element < count
      invariant element <= count
      invariant if source.valid then ok && whole == SkipElementList(source.rest, count - element)
                else !ok || whole.Fail?
    {
      var size := source.Advance(ReadSize(source.rest, MAX_BYTES), 0);
      source.SkipBytes(size);
      element := element + 1;
    }
    some := count != 0;
  }

  /** Assigns the witnesses of inputs, and tells whether any has an element. */
  method ReadWitnessesFrom(source: Reader, inputs: seq<Input>) returns (signed: seq<Input>, some: bool)
    modifies source
    ensures source.Took(old(source.valid), ReadWitnesses(old(source.rest), inputs), signed)
    ensures source.valid ==> some == Segregated(signed)
  {
    hide ReadStack;
    signed, some := [], false;
    ghost var ok, whole := source.valid, ReadWitnesses(source.rest, inputs);
    NoneContinued(whole);
    var i: nat := 0;
    assert inputs[0..] == inputs;
    while i < |inputs|
      invariant i <= |inputs| && Continues(ok, whole, source.valid, signed, ReadWitnesses(source.rest, inputs[i..]))
      invariant some == Segregated(signed)
    {
      hide Continued;
      ReadWitnessesNext(source.rest, inputs[i..]);
      assert inputs[i..][1..] == inputs[i + 1..];
      var stack := ReadStackFrom(source);
      var next := inputs[i].(stack := stack);
      if source.valid {
        OneContinued(signed, next, ReadWitnesses(source.rest, inputs[i + 1..]));
      } else {
        FailContinued(signed);
      }
      SegregatedNext(signed, next);
      signed, some := signed + [next], some || stack != [];
      i := i + 1;
    }
    DoneContinued(signed, source.rest);
  }

  lemma {:induction false} SegregatedNext(inputs: seq<Input>, next: Input)
    ensures Segregated(inputs + [next]) <==> Segregated(inputs) || next.stack != []
  {
    var s := inputs + [next];
    if next.stack != [] {
      assert s[|inputs|].stack != [];
    }
    if i :| 0 <= i < |inputs| && inputs[i].stack != [] {
      assert s[i].stack != [];
    }
  }

  lemma {:induction false} ReadWitnessesNext(b: seq<byte>, inputs: seq<Input>)
    requires inputs != []
    ensures var p := ReadStack(b);
      ReadWitnesses(b, inputs) ==
      if p.Done? then Continued([inputs[0].(stack := p.value)], ReadWitnesses(p.rest, inputs[1..])) else Fail
  {
  }

  method SkipWitnessesFrom(source: Reader, count: nat) returns (some: bool)
    modifies source
    ensures source.Took(old(source.valid), SkipWitnesses(old(source.rest), count), some)
  {
    hide SkipStack;
    some := false;
    ghost var ok, whole := source.valid, SkipWitnesses(source.rest, count);
    var i: nat := 0;
    while i < count
      invariant i <= count
      invariant if source.valid then ok && whole == Either(some, SkipWitnesses(source.rest, count - i))
                else !ok || whole.Fail?
    {
      var next := SkipStackFrom(source);
      some := some || next;
      i := i + 1;
    }
  }

  ghost function Either(some: bool, parsed: Parsed<bool>): Parsed<bool> {
    if parsed.Done? then Done(some || parsed.value, parsed.rest) else Fail
  }

  /** Reads a transaction, with or without its witnesses. */
  method FromData(source: Reader, witnessed: bool) returns (tx: Transaction)
    modifies source
    ensures source.Took(old(source.valid), ReadTransaction(old(source.rest), witnessed), tx)
  {
    hide ReadLittle, ReadInputs, ReadOutputs, ReadWitnesses, SkipWitnesses, Segregated;
    var version := source.Advance(ReadLittle(source.rest, 4), 0);
    var inputs := ReadInputsFrom(source);
    var outputs: seq<Output> := [];
    var flag: byte := 0;
    if |inputs| == WITNESS_MARKER {
      flag := source.PeekByte();
    }
    var hasWitness := |inputs| == WITNESS_MARKER && flag == WITNESS_ENABLED;
    if hasWitness {
      source.SkipBytes(1);
      inputs := ReadInputsFrom(source);
      outputs := ReadOutputsFrom(source);
      var some: bool;
      if witnessed {
        inputs, some := ReadWitnessesFrom(source, inputs);
      } else {
        some := SkipWitnessesFrom(source, |inputs|);
      }
      if !some {
        source.Invalidate();
      }
    } else {
      NoOutputsAtEnd();
      outputs := ReadOutputsFrom(source);
    }
    var locktime := source.Advance(ReadLittle(source.rest, 4), 0);
    tx := Transaction(version, inputs, outputs, locktime, hasWitness && witnessed);
  }

  lemma {:induction false} NoOutputsAtEnd()
    ensures ReadOutputs([]) == Fail
  {
  }
}
