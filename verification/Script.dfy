/** Scripts: every byte string is a list of operations, and signature operations are counted alike
    over the bytes and over the operations. */
module Script {
  import opened Common
  import opened Words

  const PUSH_SIZE_75: byte := 75
  const PUSH_ONE_SIZE: byte := 76
  const PUSH_TWO_SIZE: byte := 77
  const PUSH_FOUR_SIZE: byte := 78
  const PUSH_NEGATIVE_1: byte := 79
  const PUSH_POSITIVE_1: byte := 81
  const PUSH_POSITIVE_16: byte := 96
  const ANY_INVALID: byte := 101
  const CHECKSIG: byte := 172
  const CHECKSIGVERIFY: byte := 173
  const CHECKMULTISIG: byte := 174
  const CHECKMULTISIGVERIFY: byte := 175
  const MULTISIG_DEFAULT_SIGOPS: nat := 20

  datatype Operation = Operation(code: byte, data: seq<byte>, underflow: bool)

  // ---- Operations ----

  /** The count of bytes after an opcode that hold the size of its data. */
  function SizeBytes(code: byte): (n: nat)
    ensures n <= 4
  {
    if code == PUSH_ONE_SIZE then 1 else if code == PUSH_TWO_SIZE then 2 else if code == PUSH_FOUR_SIZE then 4 else 0
  }

  /** The size of the data of an opcode, of which the size bytes are available. */
  function DataSize(code: byte, b: seq<byte>): nat
    requires SizeBytes(code) <= |b|
  {
    if SizeBytes(code) > 0 then LittleEndian(b[..SizeBytes(code)]) else if code <= PUSH_SIZE_75 then code else 0
  }

  /** Whether the operation at the front of bytes is not all there, or is too large to be read. */
  predicate Underflows(b: seq<byte>)
    requires b != []
  {
    var n := SizeBytes(b[0]);
    |b| < 1 + n || var size := DataSize(b[0], b[1..]); size > MAX_BYTES || |b| < 1 + n + size
  }

  /** The bytes of the operation at the front. */
  function Length(b: seq<byte>): (n: nat)
    requires b != []
    ensures 0 < n <= |b|
  {
    if Underflows(b) then |b| else 1 + SizeBytes(b[0]) + DataSize(b[0], b[1..])
  }

  /** What does not read as an operation is kept as data. */
  function ReadOperation(b: seq<byte>): Operation
    requires b != []
  {
    if Underflows(b) then Operation(ANY_INVALID, b, true)
    else Operation(b[0], b[1 + SizeBytes(b[0])..Length(b)], false)
  }

  function OperationData(op: Operation): seq<byte> {
    if op.underflow then op.data
    else [op.code] + ToLittleEndian(|op.data|, SizeBytes(op.code)) + op.data
  }

  function OperationSize(op: Operation): nat {
    if op.underflow then |op.data| else 1 + SizeBytes(op.code) + |op.data|
  }

  lemma {:induction false} OperationHasSize(op: Operation)
    ensures |OperationData(op)| == OperationSize(op)
  {
    hide ToLittleEndian;
  }

  /** An operation serializes to the bytes it was read from. */
  lemma {:induction false} OperationWrites(b: seq<byte>)
    requires b != []
    ensures OperationData(ReadOperation(b)) == b[..Length(b)]
  {
    if Underflows(b) {
      assert b[..|b|] == b;
    } else {
      var n := SizeBytes(b[0]);
      var size := DataSize(b[0], b[1..]);
      assert |ReadOperation(b).data| == size;
      if n > 0 {
        WriteRead(b[1..][..n]);
        assert b[1..][..n] == b[1..1 + n];
      }
      hide LittleEndian;
      assert ToLittleEndian(size, n) == b[1..1 + n];
      assert b[..Length(b)] == [b[0]] + b[1..1 + n] + b[1 + n..Length(b)];
    }
  }

  /** An operation that is all there is read back, whatever follows it. */
  lemma {:induction false} OperationReads(op: Operation, rest: seq<byte>)
    requires !op.underflow && IsComplete(op)
    ensures var b := OperationData(op) + rest;
      !Underflows(b) && Length(b) == |OperationData(op)| && ReadOperation(b) == op
  {
    var n := SizeBytes(op.code);
    var field := ToLittleEndian(|op.data|, n);
    var b := OperationData(op) + rest;
    assert b[1..][..n] == field;
    if n > 0 {
      ReadWrite(|op.data|, n);
    }
    hide LittleEndian, ToLittleEndian, Pow256;
    assert DataSize(op.code, b[1..]) == |op.data|;
    assert b[1 + n..1 + n + |op.data|] == op.data;
  }

  /** An operation whose data has the size that its opcode or its size bytes tell. */
  ghost predicate IsComplete(op: Operation) {
    if SizeBytes(op.code) > 0 then |op.data| < Pow256(SizeBytes(op.code)) && |op.data| <= MAX_BYTES
    else |op.data| == if op.code <= PUSH_SIZE_75 then op.code else 0
  }

  ghost predicate IsUnderflow(op: Operation) {
    op.underflow && op.code == ANY_INVALID && op.data != [] && Underflows(op.data)
  }

  lemma {:induction false} OperationKinds(b: seq<byte>)
    requires b != []
    ensures var op := ReadOperation(b);
      if Underflows(b) then IsUnderflow(op) else !op.underflow && IsComplete(op)
  {
    if !Underflows(b) && SizeBytes(b[0]) > 0 {
      LittleEndianBound(b[1..][..SizeBytes(b[0])]);
    }
    hide LittleEndian, Pow256;
  }

  // ---- Scripts ----

  ghost function Parse(b: seq<byte>): seq<Operation> {
    if b == [] then [] else [ReadOperation(b)] + Parse(b[Length(b)..])
  }

  ghost function ScriptData(ops: seq<Operation>): seq<byte> {
    if ops == [] then [] else OperationData(ops[0]) + ScriptData(ops[1..])
  }

  ghost function ScriptSize(ops: seq<Operation>): nat {
    if ops == [] then 0 else OperationSize(ops[0]) + ScriptSize(ops[1..])
  }

  /** Only the last operation may be one that is not all there. */
  ghost predicate IsScript(ops: seq<Operation>) {
    forall i :: 0 <= i < |ops| ==>
      if ops[i].underflow then i == |ops| - 1 && IsUnderflow(ops[i]) else IsComplete(ops[i])
  }

  /** Every byte string is a script, and serializes to itself. */
  lemma {:induction false} ParseWrites(b: seq<byte>)
    ensures ScriptData(Parse(b)) == b && ScriptSize(Parse(b)) == |b| && IsScript(Parse(b))
    decreases |b|
  {
    hide ReadOperation, OperationData, Underflows, Length, OperationSize, IsUnderflow, IsComplete;
    if b != [] {
      var n := Length(b);
      ParseWrites(b[n..]);
      OperationWrites(b);
      OperationHasSize(ReadOperation(b));
      OperationKinds(b);
      UnderflowsAll(b);
      var ops := Parse(b);
      assert ops[1..] == Parse(b[n..]);
      assert b == b[..n] + b[n..];
      UnderflowKind(ReadOperation(b));
      forall i | 0 <= i < |ops|
        ensures if ops[i].underflow then i == |ops| - 1 && IsUnderflow(ops[i]) else IsComplete(ops[i])
      {
        if i > 0 {
          assert ops[i] == ops[1..][i - 1];
        }
      }
    }
  }

  lemma {:induction false} UnderflowKind(op: Operation)
    ensures IsUnderflow(op) ==> op.underflow
  {
  }

  lemma {:induction false} UnderflowsAll(b: seq<byte>)
    requires b != []
    ensures Underflows(b) ==> b[Length(b)..] == []
  {
  }

  /** The operations of bytes are the only script that serializes to them. */
  lemma {:induction false} ParseIff(b: seq<byte>, ops: seq<Operation>)
    ensures Parse(b) == ops <==> IsScript(ops) && ScriptData(ops) == b
    decreases |ops|
  {
    ParseWrites(b);
    if IsScript(ops) && ScriptData(ops) == b && ops != [] {
      hide ReadOperation, OperationData, Length, Underflows;
      var op := ops[0];
      var rest := ScriptData(ops[1..]);
      assert IsScript(ops[1..]);
      ParseIff(rest, ops[1..]);
      if op.underflow {
        assert ops[1..] == [];
        UnderflowReads(op);
        assert b == OperationData(op);
      } else {
        OperationReads(op, rest);
        OperationHasSize(op);
        hide IsComplete, IsUnderflow;
        assert b[|OperationData(op)|..] == rest;
      }
      assert ops == [op] + ops[1..];
    }
  }

  lemma {:induction false} UnderflowReads(op: Operation)
    requires IsUnderflow(op)
    ensures var b := OperationData(op); b != [] && ReadOperation(b) == op && Length(b) == |b|
  {
  }

  method FromData(b: seq<byte>) returns (ops: seq<Operation>)
    ensures ops == Parse(b)
  {
    hide ReadOperation, Length;
    ops := [];
    var at: nat := 0;
    while at < |b|
      invariant at <= |b| && Parse(b) == ops + Parse(b[at..])
    {
      var op := ReadOperation(b[at..]);
      var n := Length(b[at..]);
      assert b[at..][n..] == b[at + n..];
      ops := ops + [op];
      at := at + n;
    }
  }

  method ToData(ops: seq<Operation>) returns (data: seq<byte>)
    ensures data == ScriptData(ops)
  {
    hide OperationData;
    data := [];
    var i: nat := 0;
    assert ops[0..] == ops;
    while i < |ops|
      invariant i <= |ops| && data + ScriptData(ops[i..]) == ScriptData(ops)
    {
      assert ops[i..][1..] == ops[i + 1..];
      data := data + OperationData(ops[i]);
      i := i + 1;
    }
    assert ScriptData(ops[i..]) == [] && data + [] == data;
  }

  // ---- Signature operations ----

  function MultisigSigops(accurate: bool, last: byte): nat {
    if accurate && PUSH_POSITIVE_1 <= last <= PUSH_POSITIVE_16 then last - (PUSH_POSITIVE_1 - 1)
    else MULTISIG_DEFAULT_SIGOPS
  }

  /** The count past an opcode. */
  function Tally(total: nat, last: byte, code: byte, accurate: bool): nat {
    if code == CHECKSIG || code == CHECKSIGVERIFY then CeilingedAdd(total, 1)
    else if code == CHECKMULTISIG || code == CHECKMULTISIGVERIFY then
      CeilingedAdd(total, MultisigSigops(accurate, last))
    else total
  }

  ghost function TallyOperations(ops: seq<Operation>, total: nat, last: byte, accurate: bool): nat
    decreases |ops|
  {
    if ops == [] then total
    else TallyOperations(ops[1..], Tally(total, last, ops[0].code, accurate), ops[0].code, accurate)
  }

  /** What is left after skipping an operation: nothing if the stream runs out. */
  function Skip(b: seq<byte>): (r: seq<byte>)
    requires b != []
    ensures |r| < |b|
  {
    var n := SizeBytes(b[0]);
    if |b| < 1 + n || |b| < 1 + n + DataSize(b[0], b[1..]) then [] else b[1 + n + DataSize(b[0], b[1..])..]
  }

  ghost function TallyBytes(b: seq<byte>, total: nat, last: byte, accurate: bool): nat
    decreases |b|
  {
    if b == [] then total else TallyBytes(Skip(b), Tally(total, last, b[0], accurate), b[0], accurate)
  }

  method SignatureOperations(ops: seq<Operation>, accurate: bool) returns (total: nat)
    ensures total == TallyOperations(ops, 0, PUSH_NEGATIVE_1, accurate)
  {
    hide Tally;
    total := 0;
    var last := PUSH_NEGATIVE_1;
    var i: nat := 0;
    assert ops[0..] == ops;
    while i < |ops|
      invariant i <= |ops|
      invariant TallyOperations(ops, 0, PUSH_NEGATIVE_1, accurate) == TallyOperations(ops[i..], total, last, accurate)
    {
      assert ops[i..][1..] == ops[i + 1..];
      var code := ops[i].code;
      total := Tally(total, last, code, accurate);
      last, i := code, i + 1;
    }
  }

  method StreamSignatureOperations(b: seq<byte>, accurate: bool) returns (total: nat)
    ensures total == TallyBytes(b, 0, PUSH_NEGATIVE_1, accurate)
  {
    hide Tally, Skip;
    total := 0;
    var last := PUSH_NEGATIVE_1;
    var rest := b;
    while rest != []
      invariant TallyBytes(b, 0, PUSH_NEGATIVE_1, accurate) == TallyBytes(rest, total, last, accurate)
      decreases |rest|
    {
      var code := rest[0];
      total := Tally(total, last, code, accurate);
      rest, last := Skip(rest), code;
    }
  }

  /** What follows the first push that is there but too large to be read as an operation. */
  ghost function Beyond(b: seq<byte>): Option<seq<byte>> {
    if b == [] then None
    else if Underflows(b) then (if Skip(b) == [] then None else Some(Skip(b)))
    else Beyond(b[Length(b)..])
  }

  /** The two counts differ by what is counted beyond such a push, and by nothing else. */
  lemma {:induction false} CountsDiffer(b: seq<byte>, total: nat, last: byte, accurate: bool)
    ensures var count := TallyOperations(Parse(b), total, last, accurate);
      TallyBytes(b, total, last, accurate) ==
      if Beyond(b).Some? then TallyBytes(Beyond(b).value, count, PUSH_FOUR_SIZE, accurate) else count
    decreases |b|
  {
    if b != [] {
      var op := ReadOperation(b);
      var code := b[0];
      assert Parse(b)[1..] == Parse(b[Length(b)..]);
      if Underflows(b) {
        hide LittleEndian;
        UnderflowNotCounted(b, total, last, accurate);
        assert Parse(b[Length(b)..]) == [];
      } else {
        CountsDiffer(b[Length(b)..], Tally(total, last, code, accurate), code, accurate);
        assert Skip(b) == b[Length(b)..];
        hide Skip, Length, ReadOperation, Tally;
      }
    }
  }

  lemma {:induction false} UnderflowNotCounted(b: seq<byte>, total: nat, last: byte, accurate: bool)
    requires b != [] && Underflows(b)
    ensures Tally(total, last, b[0], accurate) == total && Tally(total, last, ANY_INVALID, accurate) == total
    ensures Skip(b) != [] ==> b[0] == PUSH_FOUR_SIZE
  {
    if SizeBytes(b[0]) == 1 && |b| >= 2 {
      LittleEndianBound(b[1..][..1]);
      assert Pow256(1) == 256;
    } else if SizeBytes(b[0]) == 2 && |b| >= 3 {
      LittleEndianBound(b[1..][..2]);
      assert Pow256(2) == 0x1_0000;
    }
    hide LittleEndian;
  }

  /** Scripts no larger than the limit are counted alike. */
  lemma {:induction false} CountsAgree(b: seq<byte>, accurate: bool)
    requires |b| <= MAX_BYTES
    ensures TallyBytes(b, 0, PUSH_NEGATIVE_1, accurate) ==
            TallyOperations(Parse(b), 0, PUSH_NEGATIVE_1, accurate)
  {
    CountsDiffer(b, 0, PUSH_NEGATIVE_1, accurate);
    NothingBeyond(b);
  }

  lemma {:induction false} NothingBeyond(b: seq<byte>)
    requires |b| <= MAX_BYTES
    ensures Beyond(b).None?
    decreases |b|
  {
    hide LittleEndian;
    if b != [] && !Underflows(b) {
      NothingBeyond(b[Length(b)..]);
    }
  }

  /** Past the limit the counts can differ. */
  lemma {:induction false} CountsCanDiffer(accurate: bool)
    ensures var b := [PUSH_FOUR_SIZE] + ToLittleEndian(MAX_BYTES + 1, 4) + seq(MAX_BYTES + 1, _ => 0) + [CHECKSIG];
      && TallyBytes(b, 0, PUSH_NEGATIVE_1, accurate) == 1
      && TallyOperations(Parse(b), 0, PUSH_NEGATIVE_1, accurate) == 0
  {
    var field, data := ToLittleEndian(MAX_BYTES + 1, 4), seq(MAX_BYTES + 1, _ => 0);
    var b := [PUSH_FOUR_SIZE] + field + data + [CHECKSIG];
    assert Pow256(4) == 0x1_0000_0000;
    ReadWrite(MAX_BYTES + 1, 4);
    hide LittleEndian, ToLittleEndian, Pow256;
    assert b[1..][..4] == field;
    assert DataSize(b[0], b[1..]) == MAX_BYTES + 1;
    assert Underflows(b);
    assert Skip(b) == [CHECKSIG];
    assert b[Length(b)..] == [];
    assert Parse(b) == [Operation(ANY_INVALID, b, true)];
    hide Skip, Underflows, Parse, Length;
    CountsOne(accurate);
    assert TallyBytes(b, 0, PUSH_NEGATIVE_1, accurate) == TallyBytes([CHECKSIG], 0, PUSH_FOUR_SIZE, accurate);
  }

  lemma {:induction false} CountsOne(accurate: bool)
    ensures TallyBytes([CHECKSIG], 0, PUSH_FOUR_SIZE, accurate) == 1
  {
    assert Skip([CHECKSIG]) == [];
    hide Skip;
  }

  // ---- Opcodes by number ----

  /** What an opcode adds to the count: one for a signature, and for several the number that the opcode
      before pushes, if that is accurate, or else twenty. */
  lemma {:induction false} TallyIs(total: nat, last: byte, code: byte, accurate: bool)
    ensures var added := if code == 0xac || code == 0xad then 1
                         else if code != 0xae && code != 0xaf then 0
                         else if accurate && 0x51 <= last && last <= 0x60 then last - 0x50
                         else 20;
      total <= 0xffff_ffff_ffff_ffff ==>
        Tally(total, last, code, accurate) ==
        if total + added > 0xffff_ffff_ffff_ffff then 0xffff_ffff_ffff_ffff else total + added
  {
  }

  /** The bytes that hold the size of the data of an opcode. */
  ghost function SizeField(code: byte): nat {
    if code == 0x4c then 1 else if code == 0x4d then 2 else if code == 0x4e then 4 else 0
  }

  /** An operation at the front of bytes: an opcode up to 75 is the size of its data, the next three have
      it in as many little-endian bytes as they tell, and others have no data. */
  lemma {:induction false} ReadsPush(b: seq<byte>)
    requires b != []
    ensures var n := SizeField(b[0]);
      1 + n <= |b| ==>
        var size := if n > 0 then LittleEndian(b[1..1 + n]) else if b[0] <= 0x4b then b[0] else 0;
        size <= 4_000_000 && 1 + n + size <= |b| ==>
          ReadOperation(b) == Operation(b[0], b[1 + n..1 + n + size], false)
  {
    hide LittleEndian;
    var n := SizeField(b[0]);
    if 1 + n <= |b| {
      assert b[1..][..n] == b[1..1 + n];
    }
  }

  /** Whatever is not all there, or is of more than the limit, is one invalid operation. */
  lemma {:induction false} ReadsRest(b: seq<byte>)
    requires b != []
    ensures var n := SizeField(b[0]);
      (|b| < 1 + n || (var size := if n > 0 then LittleEndian(b[1..1 + n]) else if b[0] <= 0x4b then b[0] else 0;
                       size > 4_000_000 || |b| < 1 + n + size)) <==>
      ReadOperation(b) == Operation(0x65, b, true)
  {
    hide LittleEndian;
    var n := SizeField(b[0]);
    if 1 + n <= |b| {
      assert b[1..][..n] == b[1..1 + n];
    }
  }
}
