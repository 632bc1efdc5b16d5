/** Bytes in groups of five bits, as base32 of BIP173 has them. */
module Base32 {
  import opened Words
  import opened Bits

  ghost function AllBits(values: seq<nat>, width: nat): seq<bool> {
    if values == [] then [] else BitsOf(values[0], width) + AllBits(values[1..], width)
  }

  ghost function Falses(count: nat): (r: seq<bool>)
    ensures |r| == count
  {
    seq(count, _ => false)
  }

  ghost function Drop(bits: seq<bool>, count: nat): seq<bool> {
    if |bits| <= count then [] else bits[count..]
  }

  /** The numbers of groups of bits, of which the last may want zeros. */
  ghost function Groups(bits: seq<bool>, width: nat): seq<nat>
    requires width > 0
    decreases |bits|
  {
    if bits == [] then [] else [NumberOf(Slice(bits, 0, width))] + Groups(Drop(bits, width), width)
  }

  /** The zeros that the last group wants. */
  ghost function Padding(count: nat, width: nat): (n: nat)
    requires width > 0
    ensures n < width
  {
    if count == 0 then 0 else if count <= width then width - count else Padding(count - width, width)
  }

  lemma {:induction false} BitsNumber(bits: seq<bool>)
    ensures BitsOf(NumberOf(bits), |bits|) == bits
  {
    if bits != [] {
      var front := bits[..|bits| - 1];
      BitsNumber(front);
      assert bits == front + [bits[|bits| - 1]];
    }
  }

  lemma {:induction false} NoNumber(count: nat)
    ensures NumberOf(Falses(count)) == 0
  {
    if count > 0 {
      NoNumber(count - 1);
      assert Falses(count)[..count - 1] == Falses(count - 1);
    }
  }

  /** The bits of groups are the bits grouped and the zeros that were wanted. */
  lemma {:induction false} BitsOfGroups(bits: seq<bool>, width: nat)
    requires width > 0
    ensures AllBits(Groups(bits, width), width) == bits + Falses(Padding(|bits|, width))
    decreases |bits|
  {
    hide BitsOf, NumberOf;
    if bits != [] {
      var rest, group := Drop(bits, width), Slice(bits, 0, width);
      BitsOfGroups(rest, width);
      BitsNumber(group);
      var groups := Groups(bits, width);
      assert groups[1..] == Groups(rest, width);
      if |bits| <= width {
        assert group == bits + Falses(width - |bits|);
        assert AllBits(Groups(rest, width), width) == [];
      } else {
        assert bits == group + rest;
      }
    }
  }

  ghost predicate AreBytes(values: seq<nat>) {
    forall i :: 0 <= i < |values| ==> values[i] < 256
  }

  /** The bytes of bytes' bits, and one of zeros if some follow. */
  lemma {:induction false} GroupsOfBits(bytes: seq<nat>, zeros: nat)
    requires AreBytes(bytes) && zeros < 8
    ensures Groups(AllBits(bytes, 8) + Falses(zeros), 8) == bytes + (if zeros > 0 then [0] else [])
    decreases |bytes|
  {
    hide BitsOf, NumberOf;
    var bits := AllBits(bytes, 8) + Falses(zeros);
    if bytes == [] {
      if zeros > 0 {
        assert Slice(bits, 0, 8) == Falses(8);
        NoNumber(8);
        assert Drop(bits, 8) == [];
      }
    } else {
      var first := BitsOf(bytes[0], 8);
      assert bits == first + (AllBits(bytes[1..], 8) + Falses(zeros));
      assert Slice(bits, 0, 8) == first;
      assert Drop(bits, 8) == AllBits(bytes[1..], 8) + Falses(zeros);
      NumberBits(bytes[0], 8);
      assert Pow2(8) == 256;
      GroupsOfBits(bytes[1..], zeros);
      assert bytes == [bytes[0]] + bytes[1..];
    }
  }

  // ---- Packing ----

  ghost function Unpacked(packed: seq<nat>): seq<nat> {
    Groups(AllBits(packed, 8), 5)
  }

  /** A last byte that is only padding is removed, and any other of such makes a failure. */
  ghost function Packed(unpacked: seq<nat>): seq<nat> {
    var packed := Groups(AllBits(unpacked, 5), 8);
    if (|unpacked| * 5) % 8 == 0 || packed == [] then packed
    else if packed[|packed| - 1] == 0 then packed[..|packed| - 1] else []
  }

  lemma {:induction false} AllBitsLength(values: seq<nat>, width: nat)
    ensures |AllBits(values, width)| == |values| * width
    decreases |values|
  {
    if values != [] {
      AllBitsLength(values[1..], width);
      assert |values| * width == width + (|values| - 1) * width;
    }
  }

  /** Every byte string is recovered from its groups. */
  lemma {:induction false} PackedUnpacked(bytes: seq<nat>)
    requires AreBytes(bytes)
    ensures Packed(Unpacked(bytes)) == bytes
  {
    hide Groups, AllBits, Falses;
    var bits := AllBits(bytes, 8);
    var values, zeros := Unpacked(bytes), Padding(|bits|, 5);
    BitsOfGroups(bits, 5);
    GroupsOfBits(bytes, zeros);
    AllBitsLength(bytes, 8);
    AllBitsLength(values, 5);
    assert |values| * 5 == 8 * |bytes| + zeros;
    var packed := Groups(AllBits(values, 5), 8);
    if zeros > 0 {
      assert packed[..|packed| - 1] == bytes;
    }
  }

  method WriteAll(values: seq<nat>, width: nat) returns (bits: seq<bool>)
    ensures bits == AllBits(values, width)
  {
    hide BitsOf;
    bits := [];
    var i: nat := 0;
    assert values[0..] == values;
    while i < |values|
      invariant i <= |values| && AllBits(values, width) == bits + AllBits(values[i..], width)
    {
      bits := WriteBits(bits, values[i], width);
      assert values[i..][1..] == values[i + 1..];
      i := i + 1;
    }
  }

  lemma {:induction false} SliceDropped(bits: seq<bool>, at: nat, width: nat)
    ensures Slice(Drop(bits, at), 0, width) == Slice(bits, at, width)
  {
    forall i | 0 <= i < width
      ensures Slice(Drop(bits, at), 0, width)[i] == Slice(bits, at, width)[i]
    {
      assert BitAt(Drop(bits, at), 0 + i) == BitAt(bits, at + i);
    }
  }

  method ReadAll(bits: seq<bool>, width: nat) returns (values: seq<nat>)
    requires width > 0
    ensures values == Groups(bits, width)
  {
    hide NumberOf;
    values := [];
    var at: nat := 0;
    assert Drop(bits, 0) == bits;
    while at < |bits|
      invariant Groups(bits, width) == values + Groups(Drop(bits, at), width)
      decreases |bits| - at
    {
      var value := ReadBits(bits, at, width);
      SliceDropped(bits, at, width);
      assert Drop(Drop(bits, at), width) == Drop(bits, at + width);
      values := values + [value];
      at := at + width;
    }
  }

  method Unpack(packed: seq<nat>) returns (unpacked: seq<nat>)
    ensures unpacked == Unpacked(packed)
  {
    var bits := WriteAll(packed, 8);
    unpacked := ReadAll(bits, 5);
  }

  method Pack(unpacked: seq<nat>) returns (packed: seq<nat>)
    ensures packed == Packed(unpacked)
  {
    hide Groups, AllBits;
    var bits := WriteAll(unpacked, 5);
    packed := ReadAll(bits, 8);
    if (|unpacked| * 5) % 8 != 0 {
      SomeBytes(unpacked);
      packed := if packed[|packed| - 1] == 0 then packed[..|packed| - 1] else [];
    }
  }

  lemma {:induction false} SomeBytes(unpacked: seq<nat>)
    requires unpacked != []
    ensures Groups(AllBits(unpacked, 5), 8) != []
  {
    AllBitsLength(unpacked, 5);
  }
}
