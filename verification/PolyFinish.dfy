/** The ends of Poly1305: the clamped key, and the final reduction to a tag, on 32 bit words. */
module PolyFinish {
  import opened Words
  import opened PolyLimbs

  const POW96: nat := 0x1_0000_0000_0000_0000_0000_0000
  const POW128: nat := 0x1_0000_0000_0000_0000_0000_0000_0000_0000

  // ---- The key ----

  const CLAMP: nat := 0x0fff_fffc_0fff_fffc_0fff_fffc_0fff_ffff

  function ClampLimbs(key: seq<byte>): Limbs
    requires |key| == 16
  {
    Limbs(BitAnd(LittleEndian(key[0..4]) / 1, 0x03ff_ffff),
          BitAnd(LittleEndian(key[3..7]) / 4, 0x03ff_ff03),
          BitAnd(LittleEndian(key[6..10]) / 16, 0x03ff_c0ff),
          BitAnd(LittleEndian(key[9..13]) / 64, 0x03f0_3fff),
          BitAnd(LittleEndian(key[12..16]) / 256, 0x000f_ffff))
  }

  lemma {:induction false} Pow2At26()
    ensures Pow2(26) == B1
  {
    Pow2At24();
    assert Pow2(26) == 4 * Pow2(24);
  }

  /** Masks apply to the limb and to what lies above it. */
  lemma {:induction false} AndLimb(low: nat, high: nat, lowMask: nat, highMask: nat)
    requires low < B1 && lowMask < B1
    ensures BitAnd(low + B1 * high, lowMask + B1 * highMask) == BitAnd(low, lowMask) + B1 * BitAnd(high, highMask)
  {
    hide BitAnd, ShiftLeft, Pow2;
    Pow2At26();
    ShiftIsProduct(high, 26);
    ShiftIsProduct(highMask, 26);
    ShiftIsProduct(BitAnd(high, highMask), 26);
    AndSplit(low, high, lowMask, highMask, 26);
  }

  lemma {:induction false} AndLow(x: nat, mask: nat)
    requires mask < B1
    ensures BitAnd(x, mask) == BitAnd(x % B1, mask)
  {
    AndLimb(x % B1, x / B1, mask, 0);
    assert x == x % B1 + B1 * (x / B1);
  }

  /** Clamping limb by limb is clamping the number. */
  lemma {:induction false} ClampExact(key: seq<byte>)
    requires |key| == 16
    ensures Reduced(ClampLimbs(key))
    ensures Value(ClampLimbs(key)) == BitAnd(LittleEndian(key), CLAMP)
  {
    hide BitAnd, LittleEndian, Load, Value, BitOr;
    var m := Load(key, 0);
    LoadExact(key, 0);
    LoadFields(key);
    AndLow(LittleEndian(key[0..4]) / 1, 0x03ff_ffff);
    AndLow(LittleEndian(key[3..7]) / 4, 0x03ff_ff03);
    AndLow(LittleEndian(key[6..10]) / 16, 0x03ff_c0ff);
    AndLow(LittleEndian(key[9..13]) / 64, 0x03f0_3fff);
    AndBound(LittleEndian(key[0..4]) / 1, 0x03ff_ffff);
    AndBound(LittleEndian(key[3..7]) / 4, 0x03ff_ff03);
    AndBound(LittleEndian(key[6..10]) / 16, 0x03ff_c0ff);
    AndBound(LittleEndian(key[9..13]) / 64, 0x03f0_3fff);
    AndBound(LittleEndian(key[12..16]) / 256, 0x000f_ffff);
    AndLimbs(m);
  }

  lemma {:induction false} LoadFields(key: seq<byte>)
    requires |key| == 16
    ensures var m := Load(key, 0);
      m.l0 == LittleEndian(key[0..4]) / 1 % B1 && m.l1 == LittleEndian(key[3..7]) / 4 % B1 &&
      m.l2 == LittleEndian(key[6..10]) / 16 % B1 && m.l3 == LittleEndian(key[9..13]) / 64 % B1 &&
      m.l4 == LittleEndian(key[12..16]) / 256
  {
    hide LittleEndian;
  }

  lemma {:induction false} AndLimbs(m: Limbs)
    requires Loaded(m)
    ensures BitAnd(Value(m), CLAMP) ==
            Value(Limbs(BitAnd(m.l0, 0x03ff_ffff), BitAnd(m.l1, 0x03ff_ff03), BitAnd(m.l2, 0x03ff_c0ff),
                        BitAnd(m.l3, 0x03f0_3fff), BitAnd(m.l4, 0x000f_ffff)))
  {
    hide BitAnd;
    var v3, c3 := m.l3 + B1 * m.l4, 0x03f0_3fff + B1 * 0x000f_ffff;
    var v2, c2 := m.l2 + B1 * v3, 0x03ff_c0ff + B1 * c3;
    var v1, c1 := m.l1 + B1 * v2, 0x03ff_ff03 + B1 * c2;
    AndLimb(m.l3, m.l4, 0x03f0_3fff, 0x000f_ffff);
    AndLimb(m.l2, v3, 0x03ff_c0ff, c3);
    AndLimb(m.l1, v2, 0x03ff_ff03, c2);
    AndLimb(m.l0, v1, 0x03ff_ffff, c1);
    assert Value(m) == m.l0 + B1 * v1;
    assert CLAMP == 0x03ff_ffff + B1 * c1;
  }

  // ---- The tag ----

  function Add32(a: nat, b: nat): nat {
    (a + b) % POW32
  }

  /** Full carry propagation. */
  function CarryAll(h: Limbs): Limbs {
    var h1 := h.l1 % B1;
    var h2 := Add32(h.l2, h.l1 / B1);
    var h3 := Add32(h.l3, h2 / B1);
    var h4 := Add32(h.l4, h3 / B1);
    var h0 := Add32(h.l0, h4 / B1 * 5);
    Limbs(h0 % B1, Add32(h1, h0 / B1), h2 % B1, h3 % B1, h4 % B1)
  }

  /** Every limb is within its width, the second too: it carries only when it has just been masked. */
  lemma {:induction false} CarryAllExact(h: Limbs)
    requires Reduced(h)
    ensures Loaded(CarryAll(h)) && Congruent(Value(CarryAll(h)), Value(h))
  {
    if h.l1 >= B1 {
      CarryOne(h);
    } else {
      CarryNone(h);
    }
  }

  lemma {:induction false} CarryNone(h: Limbs)
    requires Loaded(h)
    ensures CarryAll(h) == h
  {
    hide Add32;
    Unit(h.l0, 0);
    Unit(h.l1, 0);
    Unit(h.l2, 0);
    Unit(h.l3, 0);
    Unit(h.l4, 0);
    Plain(h.l0, 0);
    Plain(h.l1, 0);
    Plain(h.l2, 0);
    Plain(h.l3, 0);
    Plain(h.l4, 0);
  }

  lemma {:induction false} CarryOne(h: Limbs)
    requires Reduced(h) && h.l1 >= B1
    ensures Loaded(CarryAll(h)) && Congruent(Value(CarryAll(h)), Value(h))
  {
    var h1, h2 := h.l1 - B1, h.l2 + 1;
    var c2 := if h2 == B1 then 1 else 0;
    var h3 := h.l3 + c2;
    var c3 := if h3 == B1 then 1 else 0;
    var h4 := h.l4 + c3;
    var c4 := if h4 == B1 then 1 else 0;
    var h0 := h.l0 + 5 * c4;
    var c0 := if h0 >= B1 then 1 else 0;
    var out := Limbs(h0 - B1 * c0, h1 + c0, h2 - B1 * c2, h3 - B1 * c3, h4 - B1 * c4);
    CarryIs(h, out);
    assert Value(h) == Value(out) + PRIME * c4;
    Multiple(Value(out), c4);
  }

  lemma {:induction false} CarryIs(h: Limbs, out: Limbs)
    requires Reduced(h) && h.l1 >= B1
    requires var c2 := if h.l2 + 1 == B1 then 1 else 0;
      var c3 := if h.l3 + c2 == B1 then 1 else 0;
      var c4 := if h.l4 + c3 == B1 then 1 else 0;
      var h0 := h.l0 + 5 * c4;
      var c0 := if h0 >= B1 then 1 else 0;
      out == Limbs(h0 - B1 * c0, h.l1 - B1 + c0, h.l2 + 1 - B1 * c2, h.l3 + c2 - B1 * c3, h.l4 + c3 - B1 * c4)
    ensures CarryAll(h) == out
  {
    hide Add32;
    Unit(h.l1 - B1, 1);
    var c2 := if h.l2 + 1 == B1 then 1 else 0;
    Unit(h.l2 + 1 - B1 * c2, c2);
    var c3 := if h.l3 + c2 == B1 then 1 else 0;
    Unit(h.l3 + c2 - B1 * c3, c3);
    var c4 := if h.l4 + c3 == B1 then 1 else 0;
    Unit(h.l4 + c3 - B1 * c4, c4);
    var h0 := h.l0 + 5 * c4;
    Unit(h0 - B1 * (if h0 >= B1 then 1 else 0), if h0 >= B1 then 1 else 0);
    Plain(h.l2, 1);
    Plain(h.l3, c2);
    Plain(h.l4, c3);
    Plain(h.l0, c4 * 5);
    Plain(h.l1 - B1, if h0 >= B1 then 1 else 0);
  }

  lemma {:induction false} Unit(rest: nat, carry: nat)
    requires rest < B1
    ensures (rest + B1 * carry) / B1 == carry && (rest + B1 * carry) % B1 == rest
  {
  }

  lemma {:induction false} Plain(a: nat, b: nat)
    requires a + b < POW32
    ensures Add32(a, b) == a + b
  {
  }

  /** h plus five, less 2^130: the top limb is negative (wraps) when h is below the prime. */
  function LessPrime(h: Limbs): Limbs {
    var g0 := h.l0 + 5;
    var g1 := h.l1 + g0 / B1;
    var g2 := h.l2 + g1 / B1;
    var g3 := h.l3 + g2 / B1;
    var g4 := (h.l4 + g3 / B1 + POW32 - B1) % POW32;
    Limbs(g0 % B1, g1 % B1, g2 % B1, g3 % B1, g4)
  }

  lemma {:induction false} LessPrimeExact(h: Limbs)
    requires Loaded(h)
    ensures var g := LessPrime(h);
      if Value(h) < PRIME then g.l4 >= 0x8000_0000
      else g.l4 == 0 && Loaded(g) && Value(g) == Value(h) - PRIME
  {
    var c0 := if h.l0 + 5 >= B1 then 1 else 0;
    var c1 := if h.l1 + c0 == B1 then 1 else 0;
    var c2 := if h.l2 + c1 == B1 then 1 else 0;
    var c3 := if h.l3 + c2 == B1 then 1 else 0;
    LessPrimeIs(h, c0, c1, c2, c3);
  }

  lemma {:induction false} LessPrimeIs(h: Limbs, c0: nat, c1: nat, c2: nat, c3: nat)
    requires Loaded(h)
    requires c0 == if h.l0 + 5 >= B1 then 1 else 0
    requires c1 == if h.l1 + c0 == B1 then 1 else 0
    requires c2 == if h.l2 + c1 == B1 then 1 else 0
    requires c3 == if h.l3 + c2 == B1 then 1 else 0
    ensures LessPrime(h) == Limbs(h.l0 + 5 - B1 * c0, h.l1 + c0 - B1 * c1, h.l2 + c1 - B1 * c2, h.l3 + c2 - B1 * c3,
                                  if h.l4 + c3 == B1 then 0 else h.l4 + c3 + POW32 - B1)
  {
    AtMostOne(h.l0 + 5);
    AtMostOne(h.l1 + c0);
    AtMostOne(h.l2 + c1);
    AtMostOne(h.l3 + c2);
    TopWraps(h.l4 + c3);
  }

  lemma {:induction false} AtMostOne(x: nat)
    requires x < 2 * B1
    ensures var c := if x >= B1 then 1 else 0; x / B1 == c && x % B1 == x - B1 * c
  {
  }

  lemma {:induction false} TopWraps(x: nat)
    requires x <= B1
    ensures (x + POW32 - B1) % POW32 == if x == B1 then 0 else x + POW32 - B1
  {
  }

  /** Constant time selection: g under a mask of all ones, h under a mask of zeros. */
  function Choose(h: nat, g: nat, mask: nat): nat
    requires mask < POW32
  {
    BitOr(BitAnd(h, POW32 - 1 - mask), BitAnd(g, mask))
  }

  function Select(h: Limbs, g: Limbs): Limbs {
    var mask := (g.l4 / 0x8000_0000 + POW32 - 1) % POW32;
    Limbs(Choose(h.l0, g.l0, mask), Choose(h.l1, g.l1, mask), Choose(h.l2, g.l2, mask),
          Choose(h.l3, g.l3, mask), Choose(h.l4, g.l4, mask))
  }

  lemma {:induction false} Pow2At32()
    ensures Pow2(32) == POW32
  {
    Pow2At24();
    assert Pow2(26) == 4 * Pow2(24);
    assert Pow2(28) == 4 * Pow2(26);
    assert Pow2(30) == 4 * Pow2(28);
    assert Pow2(32) == 4 * Pow2(30);
  }

  lemma {:induction false} ChooseExact(h: nat, g: nat)
    requires h < POW32 && g < POW32
    ensures Choose(h, g, 0) == h && Choose(h, g, POW32 - 1) == g
  {
    hide Pow2;
    Pow2At32();
    AndOnes(h, 32);
    AndOnes(g, 32);
  }

  /** The representative below the prime. */
  lemma {:induction false} SelectExact(h: Limbs)
    requires Loaded(h)
    ensures Loaded(Select(h, LessPrime(h))) && Value(Select(h, LessPrime(h))) == Value(h) % PRIME
  {
    hide LessPrime, Choose, Value;
    var g := LessPrime(h);
    LessPrimeExact(h);
    LimbsBelow(h);
    if Value(h) >= PRIME {
      ChooseExact(h.l0, g.l0);
      ChooseExact(h.l1, g.l1);
      ChooseExact(h.l2, g.l2);
      ChooseExact(h.l3, g.l3);
      ChooseExact(h.l4, g.l4);
      assert Select(h, g) == g;
    } else {
      LessPrimeWords(h);
      ChooseExact(h.l0, g.l0);
      ChooseExact(h.l1, g.l1);
      ChooseExact(h.l2, g.l2);
      ChooseExact(h.l3, g.l3);
      ChooseExact(h.l4, g.l4);
      assert Select(h, g) == h;
    }
  }

  lemma {:induction false} LessPrimeWords(h: Limbs)
    ensures var g := LessPrime(h);
      g.l0 < POW32 && g.l1 < POW32 && g.l2 < POW32 && g.l3 < POW32 && g.l4 < POW32
  {
  }

  lemma {:induction false} LimbsBelow(h: Limbs)
    requires Loaded(h)
    ensures Value(h) < 2 * PRIME
  {
  }

  /** The low 128 bits of the limbs, in four words joined from shifted parts. */
  function Pack(h: Limbs): (nat, nat, nat, nat) {
    (BitOr(h.l0, h.l1 * 0x400_0000 % POW32),
     BitOr(h.l1 / 0x40, h.l2 * 0x10_0000 % POW32),
     BitOr(h.l2 / 0x1000, h.l3 * 0x4000 % POW32),
     BitOr(h.l3 / 0x4_0000, h.l4 * 0x100 % POW32))
  }

  lemma {:induction false} JoinExact(low: nat, high: nat, bits: nat, power: nat)
    requires power == Pow2(bits) && low < power
    ensures BitOr(low, power * high) == low + power * high
  {
    hide BitOr;
    OrDisjoint(low, high, bits);
    ShiftIsProduct(high, bits);
  }

  lemma {:induction false} SmallPowers()
    ensures Pow2(8) == 0x100 && Pow2(14) == 0x4000 && Pow2(20) == 0x10_0000
  {
    assert Pow2(4) == 16;
    assert Pow2(8) == 16 * Pow2(4);
    assert Pow2(12) == 16 * Pow2(8);
    assert Pow2(14) == 4 * Pow2(12);
    assert Pow2(18) == 16 * Pow2(14);
    assert Pow2(20) == 4 * Pow2(18);
  }

  lemma {:induction false} PackExact(h: Limbs)
    requires Loaded(h)
    ensures var (w0, w1, w2, w3) := Pack(h);
      w0 < POW32 && w1 < POW32 && w2 < POW32 && w3 < POW32 &&
      w0 + POW32 * w1 + POW64 * w2 + POW96 * w3 == Value(h) % POW128
  {
    hide BitOr, Pow2;
    SmallPowers();
    Pow2At26();
    assert h.l1 * 0x400_0000 % POW32 == 0x400_0000 * (h.l1 % 0x40);
    assert h.l2 * 0x10_0000 % POW32 == 0x10_0000 * (h.l2 % 0x1000);
    assert h.l3 * 0x4000 % POW32 == 0x4000 * (h.l3 % 0x4_0000);
    assert h.l4 * 0x100 % POW32 == 0x100 * (h.l4 % 0x100_0000);
    JoinExact(h.l0, h.l1 % 0x40, 26, 0x400_0000);
    JoinExact(h.l1 / 0x40, h.l2 % 0x1000, 20, 0x10_0000);
    JoinExact(h.l2 / 0x1000, h.l3 % 0x4_0000, 14, 0x4000);
    JoinExact(h.l3 / 0x4_0000, h.l4 % 0x100_0000, 8, 0x100);
    PackTiles(h);
  }

  lemma {:induction false} PackTiles(h: Limbs)
    requires Loaded(h)
    ensures (h.l0 + 0x400_0000 * (h.l1 % 0x40)) + POW32 * (h.l1 / 0x40 + 0x10_0000 * (h.l2 % 0x1000)) +
            POW64 * (h.l2 / 0x1000 + 0x4000 * (h.l3 % 0x4_0000)) +
            POW96 * (h.l3 / 0x4_0000 + 0x100 * (h.l4 % 0x100_0000)) == Value(h) % POW128
  {
    var low := h.l0 + B1 * h.l1 + B2 * h.l2 + B3 * h.l3 + B4 * (h.l4 % 0x100_0000);
    assert Value(h) == low + POW128 * (h.l4 / 0x100_0000);
    assert 0 <= low < POW128;
  }

  function Low(f: nat): nat {
    f % POW32
  }

  function High(f: nat): nat {
    f / POW32
  }

  /** The pad added word by word, modulo 2^128. */
  function PadWords(w: (nat, nat, nat, nat), s: (nat, nat, nat, nat)): (nat, nat, nat, nat) {
    var f0 := w.0 + s.0;
    var f1 := w.1 + s.1 + High(f0);
    var f2 := w.2 + s.2 + High(f1);
    var f3 := w.3 + s.3 + High(f2);
    (Low(f0), Low(f1), Low(f2), Low(f3))
  }

  function AddPad(w: (nat, nat, nat, nat), s: (nat, nat, nat, nat)): seq<byte> {
    var t := PadWords(w, s);
    ToLittleEndian(t.0, 4) + ToLittleEndian(t.1, 4) + ToLittleEndian(t.2, 4) + ToLittleEndian(t.3, 4)
  }

  /** Four words are written as the number that they make. */
  lemma {:induction false} WriteWords(t0: nat, t1: nat, t2: nat, t3: nat)
    requires t0 < POW32 && t1 < POW32 && t2 < POW32 && t3 < POW32
    ensures ToLittleEndian(t0, 4) + ToLittleEndian(t1, 4) + ToLittleEndian(t2, 4) + ToLittleEndian(t3, 4) ==
            ToLittleEndian(t0 + POW32 * (t1 + POW32 * (t2 + POW32 * t3)), 16)
  {
    hide ToLittleEndian, LittleEndian;
    assert Pow256(4) == POW32;
    var b0, b1, b2, b3 := ToLittleEndian(t0, 4), ToLittleEndian(t1, 4), ToLittleEndian(t2, 4), ToLittleEndian(t3, 4);
    ReadWrite(t0, 4);
    ReadWrite(t1, 4);
    ReadWrite(t2, 4);
    ReadWrite(t3, 4);
    LittleEndianAppend(b2, b3);
    LittleEndianAppend(b1, b2 + b3);
    LittleEndianAppend(b0, b1 + (b2 + b3));
    assert b0 + b1 + b2 + b3 == b0 + (b1 + (b2 + b3));
    WriteRead(b0 + (b1 + (b2 + b3)));
  }

  lemma {:induction false} AddPadExact(w: (nat, nat, nat, nat), s: (nat, nat, nat, nat), value: nat, pad: nat)
    requires w.0 < POW32 && w.1 < POW32 && w.2 < POW32 && w.3 < POW32
    requires s.0 < POW32 && s.1 < POW32 && s.2 < POW32 && s.3 < POW32
    requires w.0 + POW32 * w.1 + POW64 * w.2 + POW96 * w.3 == value % POW128
    requires s.0 + POW32 * s.1 + POW64 * s.2 + POW96 * s.3 == pad
    ensures AddPad(w, s) == ToLittleEndian((value + pad) % POW128, 16)
  {
    hide ToLittleEndian, PadWords;
    var t := PadWords(w, s);
    AddWords(w, s, value, pad);
    WriteWords(t.0, t.1, t.2, t.3);
  }

  lemma {:induction false} AddWords(w: (nat, nat, nat, nat), s: (nat, nat, nat, nat), value: nat, pad: nat)
    requires w.0 < POW32 && w.1 < POW32 && w.2 < POW32 && w.3 < POW32
    requires s.0 < POW32 && s.1 < POW32 && s.2 < POW32 && s.3 < POW32
    requires w.0 + POW32 * w.1 + POW64 * w.2 + POW96 * w.3 == value % POW128
    requires s.0 + POW32 * s.1 + POW64 * s.2 + POW96 * s.3 == pad
    ensures var t := PadWords(w, s);
      t.0 < POW32 && t.1 < POW32 && t.2 < POW32 && t.3 < POW32 &&
      t.0 + POW32 * (t.1 + POW32 * (t.2 + POW32 * t.3)) == (value + pad) % POW128
  {
    hide Low, High;
    var f0 := w.0 + s.0;
    var f1 := w.1 + s.1 + High(f0);
    var f2 := w.2 + s.2 + High(f1);
    var f3 := w.3 + s.3 + High(f2);
    SplitHalf(f0);
    SplitHalf(f1);
    SplitHalf(f2);
    SplitHalf(f3);
    Carried(w, s, High(f0), High(f1), High(f2), High(f3), Low(f0), Low(f1), Low(f2), Low(f3), value, pad);
  }

  lemma {:induction false} SplitHalf(f: nat)
    ensures f == POW32 * High(f) + Low(f) && Low(f) < POW32
  {
  }

  lemma {:induction false} Carried(w: (nat, nat, nat, nat), s: (nat, nat, nat, nat), c0: nat, c1: nat, c2: nat, c3: nat,
                                   t0: nat, t1: nat, t2: nat, t3: nat, value: nat, pad: nat)
    requires t0 < POW32 && t1 < POW32 && t2 < POW32 && t3 < POW32
    requires w.0 + s.0 == POW32 * c0 + t0 && w.1 + s.1 + c0 == POW32 * c1 + t1
    requires w.2 + s.2 + c1 == POW32 * c2 + t2 && w.3 + s.3 + c2 == POW32 * c3 + t3
    requires w.0 + POW32 * w.1 + POW64 * w.2 + POW96 * w.3 == value % POW128
    requires s.0 + POW32 * s.1 + POW64 * s.2 + POW96 * s.3 == pad
    ensures t0 + POW32 * (t1 + POW32 * (t2 + POW32 * t3)) == (value + pad) % POW128
  {
    Below(t0 + POW32 * (t1 + POW32 * (t2 + POW32 * t3)), c3, value, pad);
  }

  lemma {:induction false} Below(low: nat, carry: nat, value: nat, pad: nat)
    requires low < POW128 && low + POW128 * carry == value % POW128 + pad
    ensures (value + pad) % POW128 == low
  {
    assert value + pad == low + POW128 * (carry + value / POW128);
  }

  /** From a partially carried accumulator to the tag. */
  function Finish(h: Limbs, s: (nat, nat, nat, nat)): seq<byte> {
    var carried := CarryAll(h);
    AddPad(Pack(Select(carried, LessPrime(carried))), s)
  }

  lemma {:induction false} FinishExact(h: Limbs, s: (nat, nat, nat, nat), pad: nat)
    requires Reduced(h)
    requires s.0 < POW32 && s.1 < POW32 && s.2 < POW32 && s.3 < POW32
    requires s.0 + POW32 * s.1 + POW64 * s.2 + POW96 * s.3 == pad
    ensures Finish(h, s) == ToLittleEndian((Value(h) % PRIME + pad) % POW128, 16)
  {
    hide CarryAll, Select, LessPrime, Pack, AddPad, Value, ToLittleEndian;
    var carried := CarryAll(h);
    CarryAllExact(h);
    SelectExact(carried);
    var f := Select(carried, LessPrime(carried));
    PackExact(f);
    AddPadExact(Pack(f), s, Value(f), pad);
  }
}
