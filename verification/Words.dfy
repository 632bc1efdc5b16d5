/** Unsigned words and byte strings: bitwise operations on naturals, and little-endian numbers. */
module Words {

  type byte = x: int | 0 <= x < 256

  const POW32: nat := 0x1_0000_0000
  const POW64: nat := 0x1_0000_0000_0000_0000
  const MAX_UINT32: nat := 0xffff_ffff
  const MAX_UINT64: nat := 0xffff_ffff_ffff_ffff

  type uint64 = x: int | 0 <= x <= MAX_UINT64

  function Min(a: nat, b: nat): nat {
    if a < b then a else b
  }

  function Max(a: nat, b: nat): nat {
    if a < b then b else a
  }

  /** The sum, or the largest word if it overflows. */
  function CeilingedAdd(a: nat, b: nat): uint64 {
    if a + b > MAX_UINT64 then MAX_UINT64 else a + b
  }

  /** The difference, or zero if it underflows. */
  function FlooredSubtract(a: nat, b: nat): nat {
    if b > a then 0 else a - b
  }

  /** The platforms differ in the widths of the extended words that they have. */
  datatype Platform = Platform(have512: bool, have256: bool, have128: bool)

  function Pow2(n: nat): (r: nat)
    ensures r > 0
  {
    if n == 0 then 1 else 2 * Pow2(n - 1)
  }

  function Zeros(count: nat): (r: seq<byte>)
    ensures |r| == count
  {
    seq(count, _ => 0)
  }

  function ShiftLeft(value: nat, bits: nat): nat {
    if bits == 0 then value else 2 * ShiftLeft(value, bits - 1)
  }

  lemma {:induction false} ShiftIsProduct(value: nat, bits: nat)
    ensures ShiftLeft(value, bits) == Pow2(bits) * value
  {
    if bits > 0 {
      ShiftIsProduct(value, bits - 1);
      assert (2 * Pow2(bits - 1)) * value == 2 * (Pow2(bits - 1) * value);
    }
  }

  ghost function Power(base: int, n: nat): (r: int)
    ensures base >= 0 ==> r >= 0
  {
    if n == 0 then 1 else base * Power(base, n - 1)
  }

  lemma {:induction false} PowerSum(base: int, m: nat, n: nat)
    ensures Power(base, m + n) == Power(base, m) * Power(base, n)
  {
    if m > 0 {
      PowerSum(base, m - 1, n);
      MulAssociative(base, Power(base, m - 1), Power(base, n));
    }
  }

  lemma {:induction false} MulMonotone(a: nat, b: nat, c: nat)
    requires b <= c
    ensures 0 <= a * b <= a * c
  {
    if a > 0 {
      MulMonotone(a - 1, b, c);
      assert a * b == (a - 1) * b + b && a * c == (a - 1) * c + c;
    }
  }

  lemma {:induction false} MulBound(a: nat, b: nat, c: nat, d: nat)
    requires a <= c && b <= d
    ensures 0 <= a * b <= c * d
  {
    MulMonotone(a, b, d);
    MulMonotone(d, a, c);
    assert a * d == d * a && c * d == d * c;
  }

  lemma {:induction false} DivideUnique(n: nat, d: nat, q: nat, r: nat)
    requires d > 0 && n == q * d + r && r < d
    ensures n / d == q && n % d == r
  {
    var x := n / d;
    assert n == x * d + n % d;
    assert x < q ==> (x + 1) * d <= q * d;
    assert q < x ==> (q + 1) * d <= x * d;
  }

  lemma {:induction false} DivDiv(n: nat, a: nat, b: nat)
    requires a > 0 && b > 0
    ensures a * b > 0 && n / (a * b) == (n / a) / b
  {
    var q, r := n / a, n % a;
    assert n == q * a + r;
    var q', r' := q / b, q % b;
    assert q == q' * b + r';
    assert n == q' * (a * b) + (r' * a + r) by {
      assert (q' * b) * a == q' * (a * b);
      assert (q' * b + r') * a == (q' * b) * a + r' * a;
    }
    assert r' * a + r < a * b by {
      MulMonotone(a, r' + 1, b);
      assert (r' + 1) * a == r' * a + a;
    }
    DivideUnique(n, a * b, q', r' * a + r);
  }

  // ---- Bitwise operations ----

  function BitAnd(a: nat, b: nat): nat {
    if a == 0 || b == 0 then 0
    else (if a % 2 == 1 && b % 2 == 1 then 1 else 0) + 2 * BitAnd(a / 2, b / 2)
  }

  function BitOr(a: nat, b: nat): nat
    decreases a + b
  {
    if a == 0 then b else if b == 0 then a
    else (if a % 2 == 1 || b % 2 == 1 then 1 else 0) + 2 * BitOr(a / 2, b / 2)
  }

  function BitXor(a: nat, b: nat): nat
    decreases a + b
  {
    if a == 0 then b else if b == 0 then a
    else (if a % 2 != b % 2 then 1 else 0) + 2 * BitXor(a / 2, b / 2)
  }

  /** Whether a bit is set, counted from the lowest. */
  ghost predicate BitSet(n: nat, i: nat) {
    if i == 0 then n % 2 == 1 else BitSet(n / 2, i - 1)
  }

  lemma {:induction false} NoBitSet(i: nat)
    ensures !BitSet(0, i)
  {
    if i > 0 {
      NoBitSet(i - 1);
    }
  }

  /** What the operations do to every bit. */
  lemma {:induction false} BitwiseIs(a: nat, b: nat, i: nat)
    ensures BitSet(BitAnd(a, b), i) <==> BitSet(a, i) && BitSet(b, i)
    ensures BitSet(BitOr(a, b), i) <==> BitSet(a, i) || BitSet(b, i)
    ensures BitSet(BitXor(a, b), i) <==> BitSet(a, i) != BitSet(b, i)
    decreases i
  {
    NoBitSet(i);
    if a != 0 && b != 0 {
      BitwiseNext(a, b);
      if i > 0 {
        BitwiseIs(a / 2, b / 2, i - 1);
      }
    }
    hide BitAnd, BitOr, BitXor;
  }

  lemma {:induction false} BitwiseNext(a: nat, b: nat)
    requires a != 0 && b != 0
    ensures BitAnd(a, b) / 2 == BitAnd(a / 2, b / 2) && BitOr(a, b) / 2 == BitOr(a / 2, b / 2)
    ensures BitXor(a, b) / 2 == BitXor(a / 2, b / 2)
    ensures BitAnd(a, b) % 2 == 1 <==> a % 2 == 1 && b % 2 == 1
    ensures BitOr(a, b) % 2 == 1 <==> a % 2 == 1 || b % 2 == 1
    ensures BitXor(a, b) % 2 == 1 <==> a % 2 != b % 2
  {
  }

  /** Bits that do not overlap are joined by addition. */
  lemma {:induction false} OrDisjoint(low: nat, high: nat, shift: nat)
    requires low < Pow2(shift)
    ensures BitOr(low, ShiftLeft(high, shift)) == low + ShiftLeft(high, shift)
    decreases shift
  {
    if shift > 0 {
      OrDisjoint(low / 2, high, shift - 1);
    }
  }

  /** A mask of ones keeps the remainder. */
  lemma {:induction false} AndOnes(a: nat, bits: nat)
    requires a < Pow2(bits)
    ensures BitAnd(a, Pow2(bits) - 1) == a
    decreases bits
  {
    hide BitAnd;
    AndStep(a, Pow2(bits) - 1);
    if bits > 0 {
      AndOnes(a / 2, bits - 1);
      assert (Pow2(bits) - 1) / 2 == Pow2(bits - 1) - 1 && (Pow2(bits) - 1) % 2 == 1;
    }
  }

  lemma {:induction false} AndBound(a: nat, b: nat)
    ensures BitAnd(a, b) <= b
  {
    if a > 0 && b > 0 {
      AndBound(a / 2, b / 2);
    }
  }

  /** Masks apply to the low and the high bits apart. */
  lemma {:induction false} AndSplit(low: nat, high: nat, lowMask: nat, highMask: nat, bits: nat)
    requires low < Pow2(bits) && lowMask < Pow2(bits)
    ensures BitAnd(low + ShiftLeft(high, bits), lowMask + ShiftLeft(highMask, bits)) ==
            BitAnd(low, lowMask) + ShiftLeft(BitAnd(high, highMask), bits)
    decreases bits
  {
    hide BitAnd;
    if bits == 0 {
      AndStep(0, 0);
    } else {
      AndSplit(low / 2, high, lowMask / 2, highMask, bits - 1);
      AndTwice(low, ShiftLeft(high, bits - 1), lowMask, ShiftLeft(highMask, bits - 1));
      AndStep(low, lowMask);
    }
  }

  lemma {:induction false} AndTwice(a: nat, x: nat, b: nat, y: nat)
    ensures BitAnd(a + 2 * x, b + 2 * y) ==
            (if a % 2 == 1 && b % 2 == 1 then 1 else 0) + 2 * BitAnd(a / 2 + x, b / 2 + y)
  {
    AndStep(a + 2 * x, b + 2 * y);
    assert (a + 2 * x) / 2 == a / 2 + x && (b + 2 * y) / 2 == b / 2 + y;
  }

  lemma {:induction false} AndStep(a: nat, b: nat)
    ensures BitAnd(a, b) == (if a % 2 == 1 && b % 2 == 1 then 1 else 0) + 2 * BitAnd(a / 2, b / 2)
  {
  }

  lemma {:induction false} XorBound(a: nat, b: nat, bits: nat)
    requires a < Pow2(bits) && b < Pow2(bits)
    ensures BitXor(a, b) < Pow2(bits)
    decreases bits
  {
    if bits > 0 {
      XorBound(a / 2, b / 2, bits - 1);
    }
  }

  lemma {:induction false} XorStep(a: nat, b: nat)
    ensures BitXor(a, b) == (if a % 2 != b % 2 then 1 else 0) + 2 * BitXor(a / 2, b / 2)
  {
  }

  lemma {:induction false} XorCancels(a: nat, b: nat)
    ensures BitXor(BitXor(a, b), b) == a
    decreases a + b
  {
    if a == 0 && b == 0 {
    } else {
      XorCancels(a / 2, b / 2);
      XorStep(a, b);
      XorStep(BitXor(a, b), b);
      hide BitXor;
      assert BitXor(a, b) / 2 == BitXor(a / 2, b / 2);
    }
  }

  function XorByte(a: byte, b: byte): byte {
    assert Pow2(8) == 256;
    XorBound(a, b, 8);
    BitXor(a, b)
  }

  // ---- Little-endian numbers ----

  function LittleEndian(bytes: seq<byte>): nat {
    if |bytes| == 0 then 0 else bytes[0] + 256 * LittleEndian(bytes[1..])
  }

  function ToLittleEndian(value: nat, size: nat): (r: seq<byte>)
    ensures |r| == size
  {
    if size == 0 then [] else [value % 256] + ToLittleEndian(value / 256, size - 1)
  }

  function Pow256(n: nat): (r: nat)
    ensures r > 0
  {
    if n == 0 then 1 else 256 * Pow256(n - 1)
  }

  lemma {:induction false} LittleEndianBound(bytes: seq<byte>)
    ensures LittleEndian(bytes) < Pow256(|bytes|)
  {
    if |bytes| > 0 {
      LittleEndianBound(bytes[1..]);
    }
  }

  lemma {:induction false} MulAssociative(a: int, b: int, c: int)
    ensures (a * b) * c == a * (b * c)
  {
  }

  lemma {:induction false} LittleEndianAppend(a: seq<byte>, b: seq<byte>)
    ensures LittleEndian(a + b) == LittleEndian(a) + Pow256(|a|) * LittleEndian(b)
  {
    if |a| == 0 {
      assert a + b == b;
    } else {
      LittleEndianAppend(a[1..], b);
      assert (a + b)[1..] == a[1..] + b;
      assert LittleEndian(a + b) == a[0] + 256 * LittleEndian(a[1..] + b);
      MulAssociative(256, Pow256(|a| - 1), LittleEndian(b));
      hide LittleEndian;
    }
  }

  lemma {:induction false} LittleEndianFour(b: seq<byte>)
    requires |b| == 4
    ensures LittleEndian(b) == b[0] as int + 0x100 * b[1] as int + 0x1_0000 * b[2] as int + 0x100_0000 * b[3] as int
  {
    assert b[1..][1..] == b[2..] && b[2..][1..] == b[3..] && b[3..][1..] == [];
    assert LittleEndian(b[3..]) == b[3];
    assert LittleEndian(b[2..]) == b[2] + 256 * LittleEndian(b[3..]);
    assert LittleEndian(b[1..]) == b[1] + 256 * LittleEndian(b[2..]);
  }

  lemma {:induction false} Pow2At64()
    ensures Pow2(64) == 0x1_0000_0000_0000_0000
  {
    assert Pow2(8) == 0x100;
    hide Pow2;
    Pow2Sum(8, 8);
    Pow2Sum(16, 16);
    Pow2Sum(32, 32);
  }

  lemma {:induction false} Pow2Sum(a: nat, b: nat)
    ensures Pow2(a + b) == Pow2(a) * Pow2(b)
  {
    if a > 0 {
      Pow2Sum(a - 1, b);
      MulAssociative(2, Pow2(a - 1), Pow2(b));
    }
  }

  /** Writing then reading a number that fits yields it. */
  lemma {:induction false} ReadWrite(value: nat, size: nat)
    requires value < Pow256(size)
    ensures LittleEndian(ToLittleEndian(value, size)) == value
    decreases size
  {
    if size > 0 {
      ReadWrite(value / 256, size - 1);
      assert ToLittleEndian(value, size)[1..] == ToLittleEndian(value / 256, size - 1);
    }
  }

  /** Reading then writing bytes yields them. */
  lemma {:induction false} WriteRead(bytes: seq<byte>)
    ensures ToLittleEndian(LittleEndian(bytes), |bytes|) == bytes
  {
    if |bytes| > 0 {
      WriteRead(bytes[1..]);
      LowByte(bytes);
      var value := LittleEndian(bytes);
      assert ToLittleEndian(value, |bytes|) == [value % 256] + ToLittleEndian(value / 256, |bytes| - 1);
      hide LittleEndian, ToLittleEndian;
      assert bytes == [bytes[0]] + bytes[1..];
    }
  }

  lemma {:induction false} LowByte(bytes: seq<byte>)
    requires |bytes| > 0
    ensures LittleEndian(bytes) % 256 == bytes[0] && LittleEndian(bytes) / 256 == LittleEndian(bytes[1..])
  {
    var high := LittleEndian(bytes[1..]);
    assert LittleEndian(bytes) == bytes[0] as int + 256 * high;
    hide LittleEndian;
  }
}
