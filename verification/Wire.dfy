/** The wire primitives of the byte reader and writer: integers and sizes of variable length. A
    reader that has become invalid stays so, and is modelled as a failure. */
module Wire {
  import opened Words

  datatype Parsed<T> = Fail | Done(value: T, rest: seq<byte>)

  function ReadBytes(b: seq<byte>, count: nat): Parsed<seq<byte>> {
    if count <= |b| then Done(b[..count], b[count..]) else Fail
  }

  function ReadLittle(b: seq<byte>, count: nat): Parsed<nat> {
    if count <= |b| then Done(LittleEndian(b[..count]), b[count..]) else Fail
  }

  /** Only the shortest form of a number is accepted. */
  function ReadVariable(b: seq<byte>): Parsed<nat> {
    if b == [] then Fail
    else if b[0] == 0xff then AtLeast(ReadLittle(b[1..], 8), 0x1_0000_0000)
    else if b[0] == 0xfe then AtLeast(ReadLittle(b[1..], 4), 0x1_0000)
    else if b[0] == 0xfd then AtLeast(ReadLittle(b[1..], 2), 0xfd)
    else Done(b[0], b[1..])
  }

  function AtLeast(p: Parsed<nat>, minimum: nat): Parsed<nat> {
    if p.Done? && p.value >= minimum then p else Fail
  }

  function ReadSize(b: seq<byte>, limit: nat): Parsed<nat> {
    var p := ReadVariable(b);
    if p.Done? && p.value <= limit then p else Fail
  }

  function Variable(value: nat): seq<byte> {
    if value < 0xfd then [value]
    else if value <= 0xffff then [0xfd] + ToLittleEndian(value, 2)
    else if value <= 0xffff_ffff then [0xfe] + ToLittleEndian(value, 4)
    else [0xff] + ToLittleEndian(value, 8)
  }

  function VariableSize(value: nat): nat {
    if value < 0xfd then 1 else if value <= 0xffff then 3 else if value <= 0xffff_ffff then 5 else 9
  }

  lemma {:induction false} VariableHasSize(value: nat)
    ensures |Variable(value)| == VariableSize(value)
  {
    hide ToLittleEndian;
  }


  // ---- Each primitive reads exactly what it writes ----

  lemma {:induction false} LittleIff(b: seq<byte>, count: nat, value: nat, rest: seq<byte>)
    ensures ReadLittle(b, count) == Done(value, rest) <==>
            value < Pow256(count) && b == ToLittleEndian(value, count) + rest
  {
    if count <= |b| {
      assert b == b[..count] + b[count..];
      WriteRead(b[..count]);
      LittleEndianBound(b[..count]);
    }
    if value < Pow256(count) && b == ToLittleEndian(value, count) + rest {
      ReadWrite(value, count);
      assert b[..count] == ToLittleEndian(value, count) && b[count..] == rest;
    }
  }

  lemma {:induction false} BytesIff(b: seq<byte>, count: nat, value: seq<byte>, rest: seq<byte>)
    ensures ReadBytes(b, count) == Done(value, rest) <==> |value| == count && b == value + rest
  {
    if count <= |b| {
      assert b == b[..count] + b[count..];
    }
    if |value| == count && b == value + rest {
      assert b[..count] == value && b[count..] == rest;
    }
  }

  lemma {:induction false} Powers()
    ensures Pow256(2) == 0x1_0000 && Pow256(4) == 0x1_0000_0000 && Pow256(8) == MAX_UINT64 + 1
  {
    assert Pow256(3) == 0x100_0000 && Pow256(5) == 256 * Pow256(4) && Pow256(6) == 256 * Pow256(5);
    assert Pow256(7) == 256 * Pow256(6);
  }

  /** A prefix and a number of a fixed size. */
  lemma {:induction false} PrefixedIff(b: seq<byte>, prefix: byte, count: nat, value: nat, rest: seq<byte>)
    ensures b != [] && b[0] == prefix && ReadLittle(b[1..], count) == Done(value, rest) <==>
            value < Pow256(count) && b == [prefix] + ToLittleEndian(value, count) + rest
  {
    hide ReadLittle, ToLittleEndian, Pow256;
    if b != [] {
      LittleIff(b[1..], count, value, rest);
      assert b == [b[0]] + b[1..];
      assert [prefix] + ToLittleEndian(value, count) + rest == [prefix] + (ToLittleEndian(value, count) + rest);
    }
  }

  lemma {:induction false} VariableIff(b: seq<byte>, value: nat, rest: seq<byte>)
    ensures ReadVariable(b) == Done(value, rest) <==> value <= MAX_UINT64 && b == Variable(value) + rest
  {
    hide ReadLittle, ToLittleEndian, Pow256;
    Powers();
    PrefixedIff(b, 0xff, 8, value, rest);
    PrefixedIff(b, 0xfe, 4, value, rest);
    PrefixedIff(b, 0xfd, 2, value, rest);
    if b != [] {
      assert b == [b[0]] + b[1..];
    }
  }

  /** The form of a size: its byte, or a byte that tells of how many its number is. */
  lemma {:induction false} VariableForm(value: nat)
    requires value <= 0xffff_ffff_ffff_ffff
    ensures var b := Variable(value);
      && (value < 253 ==> b == [value])
      && (value >= 253 ==>
            && |b| == (if value < 65536 then 3 else if value < 0x1_0000_0000 then 5 else 9)
            && b[0] == (if value < 65536 then 253 else if value < 0x1_0000_0000 then 254 else 255)
            && LittleEndian(b[1..]) == value)
  {
    hide ToLittleEndian, LittleEndian, Pow256;
    Powers();
    if value >= 253 {
      ReadWrite(value, if value < 65536 then 2 else if value < 0x1_0000_0000 then 4 else 8);
    }
  }

  lemma {:induction false} SizeIff(b: seq<byte>, limit: nat, value: nat, rest: seq<byte>)
    ensures ReadSize(b, limit) == Done(value, rest) <==>
            value <= limit && value <= MAX_UINT64 && b == Variable(value) + rest
  {
    hide ReadVariable, Variable;
    VariableIff(b, value, rest);
  }
}
