/** Bech32 and Bech32m checksums over groups of five bits (BIP173, BIP350). */
module Bech32 {
  import opened Words
  import opened Base32

  const CHECKSUM_SIZE: nat := 6
  const BECH32: bv32 := 0x0000_0001
  const BECH32M: bv32 := 0x2bc8_30a3

  function WordOf(value: nat): bv32 {
    ((value % 32) as bv5) as bv32
  }

  // ---- The checksum is linear ----

  function Xor(a: bv32, b: bv32): bv32 {
    a ^ b
  }

  function High(checksum: bv32): bv32 {
    checksum >> 25
  }

  function Term(coefficient: bv32, bit: bv32, generator: bv32): bv32 {
    if coefficient & bit != 0 then generator else 0
  }

  function Reduction(c: bv32): bv32 {
    Xor(Xor(Xor(Xor(Term(c, 1, 0x3b6a_57b2), Term(c, 2, 0x2650_8e6d)), Term(c, 4, 0x1ea1_19fa)),
            Term(c, 8, 0x3d42_33dd)), Term(c, 16, 0x2a14_62b3))
  }

  function Shifted(checksum: bv32): bv32 {
    (checksum & 0x01ff_ffff) << 5
  }

  function Step(checksum: bv32, value: bv32): bv32 {
    Xor(Xor(Shifted(checksum), value), Reduction(High(checksum)))
  }

  lemma {:induction false} XorAssociative(a: bv32, b: bv32, c: bv32)
    ensures Xor(Xor(a, b), c) == Xor(a, Xor(b, c))
  {
  }

  lemma {:induction false} XorCommutative(a: bv32, b: bv32)
    ensures Xor(a, b) == Xor(b, a)
  {
  }

  lemma {:induction false} XorSwap(a: bv32, b: bv32, c: bv32, d: bv32)
    ensures Xor(Xor(a, b), Xor(c, d)) == Xor(Xor(a, c), Xor(b, d))
  {
    hide Xor;
    XorAssociative(a, b, Xor(c, d));
    XorAssociative(b, c, d);
    XorCommutative(b, c);
    XorAssociative(c, b, d);
    XorAssociative(a, c, Xor(b, d));
  }

  lemma {:induction false} XorZero(a: bv32)
    ensures Xor(a, a) == 0 && Xor(a, 0) == a && Xor(0, a) == a
  {
  }

  lemma {:induction false} BitLinear(c: bv32, d: bv32, bit: bv32)
    requires bit == 1 || bit == 2 || bit == 4 || bit == 8 || bit == 16
    ensures (c ^ d) & bit != 0 <==> (c & bit != 0) != (d & bit != 0)
  {
  }

  lemma {:induction false} TermLinear(c: bv32, d: bv32, bit: bv32, generator: bv32)
    requires bit == 1 || bit == 2 || bit == 4 || bit == 8 || bit == 16
    ensures Term(Xor(c, d), bit, generator) == Xor(Term(c, bit, generator), Term(d, bit, generator))
  {
    BitLinear(c, d, bit);
    XorZero(generator);
    XorZero(0);
  }

  lemma {:induction false} ReductionLinear(c: bv32, d: bv32)
    ensures Reduction(Xor(c, d)) == Xor(Reduction(c), Reduction(d))
  {
    hide Term, Xor;
    TermLinear(c, d, 1, 0x3b6a_57b2);
    TermLinear(c, d, 2, 0x2650_8e6d);
    TermLinear(c, d, 4, 0x1ea1_19fa);
    TermLinear(c, d, 8, 0x3d42_33dd);
    TermLinear(c, d, 16, 0x2a14_62b3);
    var a1, a2, a3, a4, a5 := Term(c, 1, 0x3b6a_57b2), Term(c, 2, 0x2650_8e6d), Term(c, 4, 0x1ea1_19fa),
      Term(c, 8, 0x3d42_33dd), Term(c, 16, 0x2a14_62b3);
    var b1, b2, b3, b4, b5 := Term(d, 1, 0x3b6a_57b2), Term(d, 2, 0x2650_8e6d), Term(d, 4, 0x1ea1_19fa),
      Term(d, 8, 0x3d42_33dd), Term(d, 16, 0x2a14_62b3);
    XorSwap(a1, b1, a2, b2);
    XorSwap(Xor(a1, a2), Xor(b1, b2), a3, b3);
    XorSwap(Xor(Xor(a1, a2), a3), Xor(Xor(b1, b2), b3), a4, b4);
    XorSwap(Xor(Xor(Xor(a1, a2), a3), a4), Xor(Xor(Xor(b1, b2), b3), b4), a5, b5);
  }

  lemma {:induction false} ShiftedLinear(s: bv32, t: bv32)
    ensures Shifted(Xor(s, t)) == Xor(Shifted(s), Shifted(t)) && High(Xor(s, t)) == Xor(High(s), High(t))
  {
  }

  /** A step is linear over exclusive or. */
  lemma {:induction false} StepLinear(s: bv32, t: bv32, v: bv32, w: bv32)
    ensures Step(Xor(s, t), Xor(v, w)) == Xor(Step(s, v), Step(t, w))
  {
    hide Shifted, Reduction, Xor, High;
    ShiftedLinear(s, t);
    ReductionLinear(High(s), High(t));
    XorSwap(Shifted(s), Shifted(t), v, w);
    XorSwap(Xor(Shifted(s), v), Xor(Shifted(t), w), Reduction(High(s)), Reduction(High(t)));
  }

  function Up(checksum: bv32): bv32 {
    checksum << 5
  }

  predicate IsSmall(checksum: bv32) {
    checksum < 0x0200_0000
  }

  lemma {:induction false} StepSmall(s: bv32, v: bv32)
    requires IsSmall(s)
    ensures Step(s, v) == Xor(Up(s), v)
  {
    SmallBits(s);
    NoReduction();
    hide Xor, Shifted, High, Reduction, Up, IsSmall;
    XorZero(Xor(Up(s), v));
  }

  lemma {:induction false} SmallBits(s: bv32)
    requires IsSmall(s)
    ensures Shifted(s) == Up(s) && High(s) == 0
  {
  }

  lemma {:induction false} NoReduction()
    ensures Reduction(0) == 0
  {
    hide Xor;
    XorZero(0);
    assert Term(0, 1, 0x3b6a_57b2) == 0 && Term(0, 2, 0x2650_8e6d) == 0 && Term(0, 4, 0x1ea1_19fa) == 0;
    assert Term(0, 8, 0x3d42_33dd) == 0 && Term(0, 16, 0x2a14_62b3) == 0;
  }

  predicate IsChecksum(checksum: bv32) {
    checksum < 0x4000_0000
  }

  lemma {:induction false} StepBound(s: bv32, v: bv32)
    requires v < 32
    ensures IsChecksum(Step(s, v))
  {
  }

  // ---- Over lists ----

  ghost function Steps(checksum: bv32, values: seq<nat>): bv32
    decreases |values|
  {
    if values == [] then checksum else Steps(Step(checksum, WordOf(values[0])), values[1..])
  }

  lemma {:induction false} StepsAppend(checksum: bv32, a: seq<nat>, b: seq<nat>)
    ensures Steps(checksum, a + b) == Steps(Steps(checksum, a), b)
    decreases |a|
  {
    hide Step, WordOf;
    if a == [] {
      assert a + b == b;
    } else {
      StepsAppend(Step(checksum, WordOf(a[0])), a[1..], b);
      assert (a + b)[1..] == a[1..] + b;
    }
  }

  /** Values after a sum are zeros after one term and the values after the other. */
  lemma {:induction false} StepsLinear(s: bv32, t: bv32, values: seq<nat>)
    ensures Steps(Xor(s, t), values) == Xor(Steps(s, Zeros(|values|)), Steps(t, values))
    decreases |values|
  {
    hide Step, WordOf, Xor;
    if values != [] {
      var v := WordOf(values[0]);
      XorZero(v);
      StepLinear(s, t, 0, v);
      ZeroWord();
      assert Zeros(|values|)[0] == 0 && Zeros(|values|)[1..] == Zeros(|values| - 1);
      StepsLinear(Step(s, 0), Step(t, v), values[1..]);
    }
  }

  lemma {:induction false} ZeroWord()
    ensures WordOf(0) == 0
  {
  }

  lemma {:induction false} StepsBound(checksum: bv32, values: seq<nat>)
    requires IsChecksum(checksum)
    ensures IsChecksum(Steps(checksum, values))
    decreases |values|
  {
    hide Step, WordOf, IsChecksum;
    if values != [] {
      WordBound(values[0]);
      StepBound(checksum, WordOf(values[0]));
      StepsBound(Step(checksum, WordOf(values[0])), values[1..]);
    }
  }

  lemma {:induction false} WordBound(value: nat)
    ensures WordOf(value) < 32
  {
  }

  // ---- The six values of a checksum ----

  function Down(checksum: bv32): bv32 {
    checksum >> 5
  }

  /** A checksum without its lowest values, of five bits each. */
  function Right(checksum: bv32, lowest: nat): bv32 {
    if lowest == 0 then checksum else Down(Right(checksum, lowest - 1))
  }

  function Low(checksum: bv32, lowest: nat): (v: bv32)
    ensures v < 32
  {
    Last(Right(checksum, lowest))
  }

  function Last(checksum: bv32): (v: bv32)
    ensures v < 32
  {
    checksum & 31
  }

  function Digit(checksum: bv32, lowest: nat): nat {
    Low(checksum, lowest) as nat
  }

  function Expand(checksum: bv32): (r: seq<nat>)
    ensures |r| == CHECKSUM_SIZE
  {
    [Digit(checksum, 5), Digit(checksum, 4), Digit(checksum, 3), Digit(checksum, 2), Digit(checksum, 1),
     Digit(checksum, 0)]
  }

  lemma {:induction false} WordRoundTrip(x: bv32)
    requires x < 32
    ensures x as nat < 32 && ((x as nat) as bv5) as bv32 == x
  {
  }

  lemma {:induction false} DigitWord(checksum: bv32, lowest: nat)
    ensures Digit(checksum, lowest) < 32 && WordOf(Digit(checksum, lowest)) == Low(checksum, lowest)
  {
    hide Low;
    WordRoundTrip(Low(checksum, lowest));
    assert Digit(checksum, lowest) % 32 == Digit(checksum, lowest);
  }

  lemma {:induction false} Join(c: bv32, lowest: nat)
    requires IsChecksum(c)
    ensures Xor(Up(Right(c, lowest + 1)), Low(c, lowest)) == Right(c, lowest) && IsSmall(Right(c, lowest + 1))
  {
    hide Xor, Up, IsSmall, IsChecksum, Down, Last;
    RightBound(c, lowest);
    JoinBits(Right(c, lowest));
  }

  lemma {:induction false} RightBound(c: bv32, lowest: nat)
    requires IsChecksum(c)
    ensures IsChecksum(Right(c, lowest))
  {
    hide IsChecksum, Down;
    if lowest > 0 {
      RightBound(c, lowest - 1);
      JoinBits(Right(c, lowest - 1));
    }
  }

  lemma {:induction false} JoinBits(r: bv32)
    requires IsChecksum(r)
    ensures Xor(Up(Down(r)), Last(r)) == r && IsSmall(Down(r)) && IsChecksum(Down(r))
  {
  }

  /** Six values are all of a checksum. */
  lemma {:induction false} SixValues(c: bv32)
    requires IsChecksum(c)
    ensures Right(c, 6) == 0 && Right(c, 0) == c
  {
    hide Down, IsChecksum;
    assert Right(c, 6) == Down(Right(c, 5)) == Down(Down(Right(c, 4))) == Down(Down(Down(Right(c, 3))));
    assert Right(c, 3) == Down(Right(c, 2)) == Down(Down(Right(c, 1))) == Down(Down(Down(c)));
    SixDown(c);
  }

  lemma {:induction false} SixDown(c: bv32)
    requires IsChecksum(c)
    ensures Down(Down(Down(Down(Down(Down(c)))))) == 0
  {
  }

  lemma {:induction false} OneStep(c: bv32, lowest: nat, rest: seq<nat>)
    requires IsChecksum(c) && lowest < 6
    ensures Steps(Right(c, lowest + 1), [Digit(c, lowest)] + rest) == Steps(Right(c, lowest), rest)
  {
    hide Step, WordOf, Digit, Xor, Up, Low, IsSmall, Right;
    DigitWord(c, lowest);
    Join(c, lowest);
    StepSmall(Right(c, lowest + 1), Low(c, lowest));
    assert ([Digit(c, lowest)] + rest)[1..] == rest;
  }

  /** From nothing, the values of a checksum have that checksum. */
  lemma {:induction false} ExpandJoins(c: bv32)
    requires IsChecksum(c)
    ensures Steps(0, Expand(c)) == c
  {
    hide Digit, Steps, Right, IsChecksum;
    SixValues(c);
    var r0 := [Digit(c, 0)];
    var r1 := [Digit(c, 1)] + r0;
    var r2 := [Digit(c, 2)] + r1;
    var r3 := [Digit(c, 3)] + r2;
    var r4 := [Digit(c, 4)] + r3;
    OneStep(c, 5, r4);
    OneStep(c, 4, r3);
    OneStep(c, 3, r2);
    OneStep(c, 2, r1);
    OneStep(c, 1, r0);
    OneStep(c, 0, []);
    assert Expand(c) == [Digit(c, 5)] + r4 && r0 == [Digit(c, 0)] + [];
    NoSteps(c);
  }

  lemma {:induction false} NoSteps(c: bv32)
    ensures Steps(c, []) == c
  {
  }

  // ---- Appending and verifying ----

  /** The checksum that makes values that follow a prefix verify. */
  ghost function Checksum(prefixed: seq<nat>, constant: bv32): bv32 {
    Xor(Steps(1, prefixed + Zeros(CHECKSUM_SIZE)), constant)
  }

  /** Any values verify under the constant that their checksum was appended for. */
  lemma {:induction false} AppendedVerifies(prefixed: seq<nat>, constant: bv32)
    requires IsChecksum(constant)
    ensures Steps(1, prefixed + Expand(Checksum(prefixed, constant))) == constant
  {
    OneIsChecksum();
    hide Steps, Expand, Xor, IsChecksum;
    var s := Steps(1, prefixed);
    var zeros := Steps(1, prefixed + Zeros(CHECKSUM_SIZE));
    var c := Checksum(prefixed, constant);
    StepsBound(1, prefixed + Zeros(CHECKSUM_SIZE));
    XorChecksum(zeros, constant);
    StepsAppend(1, prefixed, Zeros(CHECKSUM_SIZE));
    StepsAppend(1, prefixed, Expand(c));
    XorZero(s);
    StepsLinear(s, 0, Expand(c));
    ExpandJoins(c);
  }

  lemma {:induction false} OneIsChecksum()
    ensures IsChecksum(1)
  {
  }

  lemma {:induction false} XorChecksum(a: bv32, b: bv32)
    requires IsChecksum(a) && IsChecksum(b)
    ensures IsChecksum(Xor(a, b)) && Xor(a, Xor(a, b)) == b
  {
  }

  // ---- Errors ----

  /** Nothing but nothing steps to nothing. */
  lemma {:induction false} StepNothing(s: bv32)
    requires IsChecksum(s) && Step(s, 0) == 0
    ensures s == 0
  {
  }

  lemma {:induction false} StepInjective(s: bv32, t: bv32, v: bv32)
    requires IsChecksum(s) && IsChecksum(t) && s != t
    ensures Step(s, v) != Step(t, v)
  {
    hide Step, Xor, IsChecksum;
    StepLinear(s, t, v, v);
    XorZero(v);
    XorChecksum(s, t);
    XorZero(s);
    XorZero(Step(s, v));
    if Step(s, v) == Step(t, v) {
      StepNothing(Xor(s, t));
    }
  }

  lemma {:induction false} StepsInjective(s: bv32, t: bv32, values: seq<nat>)
    requires IsChecksum(s) && IsChecksum(t) && s != t
    ensures Steps(s, values) != Steps(t, values)
    decreases |values|
  {
    hide Step, IsChecksum, WordOf;
    if values != [] {
      var v := WordOf(values[0]);
      WordBound(values[0]);
      StepInjective(s, t, v);
      StepBound(s, v);
      StepBound(t, v);
      StepsInjective(Step(s, v), Step(t, v), values[1..]);
    }
  }

  lemma {:induction false} StepDiffers(s: bv32, v: bv32, w: bv32)
    requires v != w
    ensures Step(s, v) != Step(s, w)
  {
    hide Step, Xor;
    StepLinear(s, s, v, w);
    XorZero(s);
    XorZero(Step(s, v));
    OnlyValue(Xor(v, w));
    if Step(s, v) == Step(s, w) {
      XorSame(v, w);
    }
  }

  lemma {:induction false} OnlyValue(v: bv32)
    ensures Step(0, v) == v
  {
    hide Step, Xor, Up, IsSmall;
    ZeroSmall();
    StepSmall(0, v);
    XorZero(v);
  }

  lemma {:induction false} ZeroSmall()
    ensures IsSmall(0) && Up(0) == 0
  {
  }

  lemma {:induction false} XorSame(a: bv32, b: bv32)
    requires Xor(a, b) == 0
    ensures a == b
  {
  }

  lemma {:induction false} FiveBits(value: nat)
    requires value < 32
    ensures (value as bv5) as nat == value
  {
  }

  lemma {:induction false} WiderDiffers(x: bv5, y: bv5)
    requires x != y
    ensures x as bv32 != y as bv32
  {
  }

  lemma {:induction false} WordDiffers(a: nat, b: nat)
    requires a < 32 && b < 32 && a != b
    ensures WordOf(a) != WordOf(b)
  {
    FiveBits(a);
    FiveBits(b);
    WiderDiffers(a as bv5, b as bv5);
  }

  /** Values that verify do not verify once one of them is changed. */
  lemma {:induction false} OneErrorDetected(values: seq<nat>, i: nat, value: nat, constant: bv32)
    requires i < |values| && values[i] < 32 && value < 32 && value != values[i]
    requires Steps(1, values) == constant
    ensures Steps(1, values[i := value]) != constant
  {
    OneIsChecksum();
    hide Step, WordOf, IsChecksum;
    var before, after := values[..i], values[i + 1..];
    assert values == before + ([values[i]] + after);
    assert values[i := value] == before + ([value] + after);
    hide Steps;
    StepsAppend(1, before, [values[i]] + after);
    StepsAppend(1, before, [value] + after);
    FirstDiffers(Steps(1, before), values[i], value, after);
  }

  lemma {:induction false} FirstDiffers(s: bv32, a: nat, b: nat, after: seq<nat>)
    requires a < 32 && b < 32 && a != b
    ensures Steps(s, [a] + after) != Steps(s, [b] + after)
  {
    hide Step, WordOf, IsChecksum;
    WordDiffers(a, b);
    StepDiffers(s, WordOf(a), WordOf(b));
    WordBound(a);
    WordBound(b);
    StepBound(s, WordOf(a));
    StepBound(s, WordOf(b));
    StepsInjective(Step(s, WordOf(a)), Step(s, WordOf(b)), after);
    assert ([a] + after)[1..] == after && ([b] + after)[1..] == after;
  }

  // ---- Addresses ----

  function ToLower(c: byte): byte {
    if 0x41 <= c <= 0x5a then c + 0x20 else c
  }

  /** The high bits of the characters, a zero, and the low bits. */
  function ExpandPrefix(prefix: seq<byte>): seq<nat> {
    var lower := seq(|prefix|, i requires 0 <= i < |prefix| => ToLower(prefix[i]) as nat);
    seq(|lower|, i requires 0 <= i < |lower| => lower[i] / 32) + [0] +
    seq(|lower|, i requires 0 <= i < |lower| => lower[i] % 32)
  }

  method ChecksumOf(values: seq<nat>) returns (checksum: bv32)
    ensures checksum == Steps(1, values)
  {
    hide Step, WordOf;
    checksum := 1;
    var i: nat := 0;
    assert values[0..] == values;
    while i < |values|
      invariant i <= |values| && Steps(1, values) == Steps(checksum, values[i..])
    {
      assert values[i..][1..] == values[i + 1..];
      checksum := Step(checksum, WordOf(values[i]));
      i := i + 1;
    }
  }

  method VerifyChecksum(checked: seq<nat>, prefix: seq<byte>, constant: bv32) returns (ok: bool)
    ensures ok <==> Verifies(checked, prefix, constant)
  {
    hide Steps, ExpandPrefix;
    var checksum := ChecksumOf(ExpandPrefix(prefix) + checked);
    ok := checksum == constant;
  }

  ghost predicate Verifies(checked: seq<nat>, prefix: seq<byte>, constant: bv32) {
    Steps(1, ExpandPrefix(prefix) + checked) == constant
  }

  /** The version, the program and a checksum, or nothing if the version is no group. */
  ghost function Checked(version: nat, program: seq<nat>, prefix: seq<byte>, constant: bv32): seq<nat> {
    if version >= 32 then []
    else
      var data := [version] + Unpacked(program);
      data + Expand(Checksum(ExpandPrefix(prefix) + data, constant))
  }

  method BuildChecked(version: nat, program: seq<nat>, prefix: seq<byte>, constant: bv32) returns (checked: seq<nat>)
    ensures checked == Checked(version, program, prefix, constant)
  {
    hide Steps, ExpandPrefix, Unpacked, Expand, Xor;
    if version >= 32 {
      return [];
    }
    var unpacked := Unpack(program);
    var data := [version] + unpacked;
    var checksum := ChecksumOf(ExpandPrefix(prefix) + data + Zeros(CHECKSUM_SIZE));
    checked := data + Expand(Xor(checksum, constant));
  }

  method ExtractChecked(checked: seq<nat>) returns (ok: bool, version: nat, program: seq<nat>)
    ensures ok <==> |checked| >= 1 + CHECKSUM_SIZE
    ensures ok ==> version == checked[0] && program == Packed(checked[1..|checked| - CHECKSUM_SIZE])
  {
    if |checked| < 1 + CHECKSUM_SIZE {
      return false, 0, [];
    }
    program := Pack(checked[1..|checked| - CHECKSUM_SIZE]);
    return true, checked[0], program;
  }

  /** What is built verifies, and its version and program are extracted from it. */
  lemma {:induction false} BuiltVerifies(version: nat, program: seq<nat>, prefix: seq<byte>, constant: bv32)
    requires version < 32 && AreBytes(program) && (constant == BECH32 || constant == BECH32M)
    ensures var checked := Checked(version, program, prefix, constant);
      && Verifies(checked, prefix, constant)
      && |checked| >= 1 + CHECKSUM_SIZE && checked[0] == version
      && Packed(checked[1..|checked| - CHECKSUM_SIZE]) == program
  {
    hide Steps, ExpandPrefix, Unpacked, Expand, Checksum, IsChecksum, Packed;
    ConstantsAreChecksums();
    var data := [version] + Unpacked(program);
    var prefixed := ExpandPrefix(prefix) + data;
    AppendedVerifies(prefixed, constant);
    PackedUnpacked(program);
    Between(ExpandPrefix(prefix), version, Unpacked(program), Expand(Checksum(prefixed, constant)));
  }

  lemma {:induction false} ConstantsAreChecksums()
    ensures IsChecksum(BECH32) && IsChecksum(BECH32M)
  {
  }

  lemma {:induction false} Between(prefix: seq<nat>, version: nat, program: seq<nat>, checksum: seq<nat>)
    ensures var checked := [version] + program + checksum;
      && prefix + checked == prefix + ([version] + program) + checksum
      && checked[1..|checked| - |checksum|] == program
  {
  }

  // ---- The strings of the standards ----

  lemma {:induction false} StepTo(checksum: bv32, value: nat, next: bv32, rest: seq<nat>, values: seq<nat>)
    requires Step(checksum, WordOf(value)) == next && |values| == |rest| + 1
    requires values[0] == value && forall i :: 0 <= i < |rest| ==> values[i + 1] == rest[i]
    ensures Steps(checksum, values) == Steps(next, rest)
  {
    assert values[1..] == rest;
    hide Step, WordOf;
  }

  lemma {:induction false} StepsVector()
    ensures Steps(1, [3, 0, 1, 10, 28, 25, 31, 20, 31]) == 0x0000_0001
  {
    hide Steps, WordOf;
    VectorWords();
    NextWords();
    LastWords();
    StepTo(0x0000_0001, 3, 0x0000_0023, [0, 1, 10, 28, 25, 31, 20, 31], [3, 0, 1, 10, 28, 25, 31, 20, 31]);
    StepTo(0x0000_0023, 0, 0x0000_0460, [1, 10, 28, 25, 31, 20, 31], [0, 1, 10, 28, 25, 31, 20, 31]);
    StepTo(0x0000_0460, 1, 0x0000_8c01, [10, 28, 25, 31, 20, 31], [1, 10, 28, 25, 31, 20, 31]);
    StepTo(0x0000_8c01, 10, 0x0011_802a, [28, 25, 31, 20, 31], [10, 28, 25, 31, 20, 31]);
    StepTo(0x0011_802a, 28, 0x0230_055c, [25, 31, 20, 31], [28, 25, 31, 20, 31]);
    StepTo(0x0230_055c, 25, 0x3d6a_fc2b, [31, 20, 31], [25, 31, 20, 31]);
    StepTo(0x3d6a_fc2b, 31, 0x02f8_4386, [20, 31], [31, 20, 31]);
    StepTo(0x02f8_4386, 20, 0x2462_2766, [31], [20, 31]);
    StepTo(0x2462_2766, 31, 0x0000_0001, [], [31]);
    NoneLeft(0x0000_0001);
  }

  lemma {:induction false} StepsVectorM()
    ensures Steps(1, [3, 0, 1, 31, 0, 9, 19, 17, 29]) == 0x2bc8_30a3
  {
    hide Steps, WordOf;
    VectorWords();
    NextWords();
    LastWords();
    StepTo(0x0000_0001, 3, 0x0000_0023, [0, 1, 31, 0, 9, 19, 17, 29], [3, 0, 1, 31, 0, 9, 19, 17, 29]);
    StepTo(0x0000_0023, 0, 0x0000_0460, [1, 31, 0, 9, 19, 17, 29], [0, 1, 31, 0, 9, 19, 17, 29]);
    StepTo(0x0000_0460, 1, 0x0000_8c01, [31, 0, 9, 19, 17, 29], [1, 31, 0, 9, 19, 17, 29]);
    StepTo(0x0000_8c01, 31, 0x0011_803f, [0, 9, 19, 17, 29], [31, 0, 9, 19, 17, 29]);
    StepTo(0x0011_803f, 0, 0x0230_07e0, [9, 19, 17, 29], [0, 9, 19, 17, 29]);
    StepTo(0x0230_07e0, 9, 0x3d6a_abbb, [19, 17, 29], [9, 19, 17, 29]);
    StepTo(0x3d6a_abbb, 19, 0x02f2_b18a, [17, 29], [19, 17, 29]);
    StepTo(0x02f2_b18a, 17, 0x253c_66e3, [29], [17, 29]);
    StepTo(0x253c_66e3, 29, 0x2bc8_30a3, [], [29]);
    NoneLeft(0x2bc8_30a3);
  }

  lemma {:induction false} NoneLeft(checksum: bv32)
    ensures Steps(checksum, []) == checksum
  {
  }

  lemma {:induction false} VectorWords()
    ensures WordOf(0) == 0 && WordOf(1) == 1 && WordOf(3) == 3 && WordOf(9) == 9
  {
  }

  lemma {:induction false} NextWords()
    ensures WordOf(10) == 10 && WordOf(17) == 17 && WordOf(19) == 19 && WordOf(20) == 20
  {
  }

  lemma {:induction false} LastWords()
    ensures WordOf(25) == 25 && WordOf(28) == 28 && WordOf(29) == 29 && WordOf(31) == 31
  {
  }

  lemma {:induction false} PrefixVector()
    ensures ExpandPrefix([0x41]) == [3, 0, 1]
  {
  }

  /** The strings A12UEL5L of BIP173 and A1LQFN3A of BIP350 verify, each under the constant of its own. */
  lemma {:induction false} StandardsVerify()
    ensures Verifies([10, 28, 25, 31, 20, 31], [0x41], BECH32) && !Verifies([10, 28, 25, 31, 20, 31], [0x41], BECH32M)
    ensures Verifies([31, 0, 9, 19, 17, 29], [0x41], BECH32M) && !Verifies([31, 0, 9, 19, 17, 29], [0x41], BECH32)
  {
    hide Steps, ExpandPrefix;
    PrefixVector();
    StepsVector();
    StepsVectorM();
    assert [3, 0, 1] + [10, 28, 25, 31, 20, 31] == [3, 0, 1, 10, 28, 25, 31, 20, 31];
    assert [3, 0, 1] + [31, 0, 9, 19, 17, 29] == [3, 0, 1, 31, 0, 9, 19, 17, 29];
  }

  /** A prefix in lower case as its high bits, a zero, and its low bits. */
  lemma {:induction false} PrefixAt(prefix: seq<byte>, i: nat)
    requires i < |prefix|
    ensures var values := ExpandPrefix(prefix);
      var lower: nat := if 'A' as int <= prefix[i] && prefix[i] <= 'Z' as int then prefix[i] + 32 else prefix[i];
      && |values| == 2 * |prefix| + 1 && values[|prefix|] == 0
      && values[i] < 8 && values[|prefix| + 1 + i] < 32
      && 32 * values[i] + values[|prefix| + 1 + i] == lower
  {
  }
}
