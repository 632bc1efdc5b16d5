/** Numbers as bits, from the highest to the lowest, and streams of them. */
module Bits {
  import opened Words

  /** The rightmost bits of a number, from left to right. */
  ghost function BitsOf(value: nat, count: nat): (r: seq<bool>)
    ensures |r| == count
  {
    if count == 0 then [] else BitsOf(value / 2, count - 1) + [value % 2 == 1]
  }

  ghost function NumberOf(bits: seq<bool>): nat {
    if bits == [] then 0 else 2 * NumberOf(bits[..|bits| - 1]) + (if bits[|bits| - 1] then 1 else 0)
  }

  lemma {:induction false} NumberBits(value: nat, count: nat)
    ensures NumberOf(BitsOf(value, count)) == value % Pow2(count)
  {
    if count > 0 {
      NumberBits(value / 2, count - 1);
      assert BitsOf(value, count)[..count - 1] == BitsOf(value / 2, count - 1);
      RemainderHalf(value, Pow2(count - 1));
    }
  }

  lemma {:induction false} RemainderHalf(value: nat, p: nat)
    requires p > 0
    ensures value % (2 * p) == 2 * ((value / 2) % p) + value % 2
  {
    var h := value / 2;
    var q, r := h / p, h % p;
    assert h == q * p + r;
    assert q * (2 * p) == 2 * (q * p);
    DivideUnique(value, 2 * p, q, 2 * r + value % 2);
  }

  /** Writes the rightmost bits of a number. */
  method WriteBits(sink: seq<bool>, value: nat, count: nat) returns (out: seq<bool>)
    ensures out == sink + BitsOf(value, count)
  {
    var bits: seq<bool>, rest: nat, left: nat := [], value, count;
    while left > 0
      invariant left <= count && BitsOf(value, count) == BitsOf(rest, left) + bits
    {
      bits := [rest % 2 == 1] + bits;
      rest, left := rest / 2, left - 1;
    }
    out := sink + bits;
  }

  /** Beyond the end of a stream zeros are read. */
  function BitAt(bits: seq<bool>, at: nat): bool {
    at < |bits| && bits[at]
  }

  ghost function Slice(bits: seq<bool>, at: nat, count: nat): (r: seq<bool>)
    ensures |r| == count
  {
    seq(count, i requires 0 <= i < count => BitAt(bits, at + i))
  }

  method ReadBits(bits: seq<bool>, at: nat, count: nat) returns (value: nat)
    ensures value == NumberOf(Slice(bits, at, count))
  {
    value := 0;
    var bit: nat := count;
    assert Slice(bits, at, 0) == [];
    while bit > 0
      invariant bit <= count && value == NumberOf(Slice(bits, at, count - bit)) * Pow2(bit)
    {
      var read := BitAt(bits, at + (count - bit));
      var s := Slice(bits, at, count - bit);
      SliceNext(bits, at, count - bit);
      assert Pow2(bit) == 2 * Pow2(bit - 1);
      NextBit(NumberOf(Slice(bits, at, count - bit)), if read then 1 else 0, Pow2(bit - 1));
      value := value + (if read then Pow2(bit - 1) else 0);
      bit := bit - 1;
    }
  }

  lemma {:induction false} SliceNext(bits: seq<bool>, at: nat, count: nat)
    ensures NumberOf(Slice(bits, at, count + 1)) ==
            2 * NumberOf(Slice(bits, at, count)) + (if BitAt(bits, at + count) then 1 else 0)
  {
    assert Slice(bits, at, count + 1)[..count] == Slice(bits, at, count);
  }

  lemma {:induction false} NextBit(n: nat, bit: nat, p: nat)
    ensures (2 * n + bit) * p == n * (2 * p) + bit * p
  {
  }
}
