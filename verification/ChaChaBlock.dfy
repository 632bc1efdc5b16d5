/** The ChaCha20 block function of section 2.3 of RFC 8439, one block at a time and one block per
    lane of a wide word. */
module ChaChaBlock {
  import opened Words

  const BLOCK: nat := 64

  type word = bv32

  datatype Nonce = Nonce(low: nat, middle: nat, high: nat)

  function Sum(a: word, b: word): word {
    a + b
  }

  function XorRotate(a: word, b: word, bits: word): word
    requires bits <= 32
  {
    ((a ^ b) << bits) | ((a ^ b) >> (32 - bits))
  }

  // ---- Rounds over one state ----

  function AddStep(x: seq<word>, a: nat, b: nat): (r: seq<word>)
    requires |x| == 16 && a < 16 && b < 16
    ensures |r| == 16
  {
    x[a := Sum(x[a], x[b])]
  }

  function XorRotateStep(x: seq<word>, d: nat, a: nat, bits: word): (r: seq<word>)
    requires |x| == 16 && d < 16 && a < 16 && bits <= 32
    ensures |r| == 16
  {
    x[d := XorRotate(x[d], x[a], bits)]
  }

  function HalfQuarter(x: seq<word>, a: nat, b: nat, c: nat, d: nat, first: word, second: word): (r: seq<word>)
    requires |x| == 16 && a < 16 && b < 16 && c < 16 && d < 16 && first <= 32 && second <= 32
    ensures |r| == 16
  {
    XorRotateStep(AddStep(XorRotateStep(AddStep(x, a, b), d, a, first), c, d), b, c, second)
  }

  function Quarter(x: seq<word>, a: nat, b: nat, c: nat, d: nat): (r: seq<word>)
    requires |x| == 16 && a < 16 && b < 16 && c < 16 && d < 16
    ensures |r| == 16
  {
    HalfQuarter(HalfQuarter(x, a, b, c, d, 16, 12), a, b, c, d, 8, 7)
  }

  function Columns(x: seq<word>): (r: seq<word>)
    requires |x| == 16
    ensures |r| == 16
  {
    Quarter(Quarter(Quarter(Quarter(x, 0, 4, 8, 12), 1, 5, 9, 13), 2, 6, 10, 14), 3, 7, 11, 15)
  }

  function Diagonals(x: seq<word>): (r: seq<word>)
    requires |x| == 16
    ensures |r| == 16
  {
    Quarter(Quarter(Quarter(Quarter(x, 0, 5, 10, 15), 1, 6, 11, 12), 2, 7, 8, 13), 3, 4, 9, 14)
  }

  function DoubleRounds(x: seq<word>, count: nat): (r: seq<word>)
    requires |x| == 16
    ensures |r| == 16
  {
    if count == 0 then x else Diagonals(Columns(DoubleRounds(x, count - 1)))
  }

  function Sums(x: seq<word>, start: seq<word>): (r: seq<word>)
    requires |x| == |start| == 16
    ensures |r| == 16
  {
    seq(16, i requires 0 <= i < 16 => Sum(x[i], start[i]))
  }

  function Rounds(x: seq<word>): (r: seq<word>)
    requires |x| == 16
    ensures |r| == 16
  {
    Sums(DoubleRounds(x, 10), x)
  }

  // ---- States and blocks ----

  function ToWord(n: nat): word {
    (n % POW32) as word
  }

  function WordOf(bytes: seq<byte>): word
    requires |bytes| == 4
  {
    ToWord(LittleEndian(bytes))
  }

  function Sigma(): (r: seq<word>)
    ensures |r| == 4
  {
    [0x61707865, 0x3320646e, 0x79622d32, 0x6b206574]
  }

  function KeyWords(key: seq<byte>): (r: seq<word>)
    requires |key| == 32
    ensures |r| == 8
  {
    seq(8, i requires 0 <= i < 8 => WordOf(key[4 * i..4 * i + 4]))
  }

  function Initial(key: seq<byte>, nonce: Nonce, counter: nat): (r: seq<word>)
    requires |key| == 32
    ensures |r| == 16
  {
    Sigma() + KeyWords(key) + [ToWord(counter), ToWord(nonce.low), ToWord(nonce.middle), ToWord(nonce.high)]
  }

  function Serialize(x: seq<word>): (r: seq<byte>)
    ensures |r| == 4 * |x|
  {
    if x == [] then [] else ToLittleEndian(x[0] as nat, 4) + Serialize(x[1..])
  }

  function Block(key: seq<byte>, nonce: Nonce, counter: nat): (r: seq<byte>)
    requires |key| == 32
    ensures |r| == BLOCK
  {
    Serialize(Rounds(Initial(key, nonce, counter)))
  }

  // ---- What the operations compute ----

  /** The product of a word by a power of two, with what overflows put back at the bottom. */
  function Turned(x: word, factor: bv64): bv64 {
    ((x as bv64) * factor) % 0x1_0000_0000 + ((x as bv64) * factor) / 0x1_0000_0000
  }

  /** Rotation is to the left, by the counts of section 2.1 of RFC 8439. */
  lemma {:induction false} RotatesLeft(a: word, b: word)
    ensures XorRotate(a, b, 16) as bv64 == Turned(a ^ b, 0x1_0000)
    ensures XorRotate(a, b, 12) as bv64 == Turned(a ^ b, 0x1000)
    ensures XorRotate(a, b, 8) as bv64 == Turned(a ^ b, 0x100)
    ensures XorRotate(a, b, 7) as bv64 == Turned(a ^ b, 0x80)
  {
    hide Turned, XorRotate;
    RotatesBy16(a, b);
    RotatesBy12(a, b);
    RotatesBy8(a, b);
    RotatesBy7(a, b);
  }

  lemma {:induction false} RotatesBy16(a: word, b: word)
    ensures XorRotate(a, b, 16) as bv64 == Turned(a ^ b, 0x1_0000)
  {
  }

  lemma {:induction false} RotatesBy12(a: word, b: word)
    ensures XorRotate(a, b, 12) as bv64 == Turned(a ^ b, 0x1000)
  {
  }

  lemma {:induction false} RotatesBy8(a: word, b: word)
    ensures XorRotate(a, b, 8) as bv64 == Turned(a ^ b, 0x100)
  {
  }

  lemma {:induction false} RotatesBy7(a: word, b: word)
    ensures XorRotate(a, b, 7) as bv64 == Turned(a ^ b, 0x80)
  {
  }

  /** The quarter round on four words. */
  function QuarterWords(a: word, b: word, c: word, d: word): (word, word, word, word) {
    var a1 := Sum(a, b);
    var d1 := XorRotate(d, a1, 16);
    var c1 := Sum(c, d1);
    var b1 := XorRotate(b, c1, 12);
    var a2 := Sum(a1, b1);
    var d2 := XorRotate(d1, a2, 8);
    var c2 := Sum(c1, d2);
    (a2, XorRotate(b1, c2, 7), c2, d2)
  }

  /** The test vector of section 2.1.1 of RFC 8439. */
  lemma {:induction false} QuarterVector()
    ensures QuarterWords(0x1111_1111, 0x0102_0304, 0x9b8d_6f43, 0x0123_4567) ==
            (0xea2a_92f4, 0xcb1c_f8ce, 0x4581_472e, 0x5881_c4bb)
  {
  }

  lemma {:induction false} HalfIs(x: seq<word>, a: nat, b: nat, c: nat, d: nat, first: word, second: word)
    requires |x| == 16 && a < 16 && b < 16 && c < 16 && d < 16 && first <= 32 && second <= 32
    requires a != b && a != c && a != d && b != c && b != d && c != d
    ensures var y := HalfQuarter(x, a, b, c, d, first, second);
      && y[a] == Sum(x[a], x[b]) && y[d] == XorRotate(x[d], y[a], first)
      && y[c] == Sum(x[c], y[d]) && y[b] == XorRotate(x[b], y[c], second)
      && forall i :: 0 <= i < 16 && i != a && i != b && i != c && i != d ==> y[i] == x[i]
  {
    hide XorRotate, Sum;
  }

  lemma {:induction false} QuarterIs(x: seq<word>, a: nat, b: nat, c: nat, d: nat)
    requires |x| == 16 && a < 16 && b < 16 && c < 16 && d < 16
    requires a != b && a != c && a != d && b != c && b != d && c != d
    ensures var q := QuarterWords(x[a], x[b], x[c], x[d]);
      Quarter(x, a, b, c, d) == x[a := q.0][b := q.1][c := q.2][d := q.3]
  {
    hide XorRotate, Sum, HalfQuarter;
    HalfIs(x, a, b, c, d, 16, 12);
    HalfIs(HalfQuarter(x, a, b, c, d, 16, 12), a, b, c, d, 8, 7);
  }

  /** The quarter rounds are of the columns of the state, four by four. */
  lemma {:induction false} ColumnsAre(x: seq<word>)
    requires |x| == 16
    ensures var p, q := QuarterWords(x[0], x[4], x[8], x[12]), QuarterWords(x[1], x[5], x[9], x[13]);
      var r, s := QuarterWords(x[2], x[6], x[10], x[14]), QuarterWords(x[3], x[7], x[11], x[15]);
      Columns(x) == [p.0, q.0, r.0, s.0, p.1, q.1, r.1, s.1, p.2, q.2, r.2, s.2, p.3, q.3, r.3, s.3]
  {
    hide Quarter, QuarterWords;
    QuarterIs(x, 0, 4, 8, 12);
    var x1 := Quarter(x, 0, 4, 8, 12);
    QuarterIs(x1, 1, 5, 9, 13);
    var x2 := Quarter(x1, 1, 5, 9, 13);
    QuarterIs(x2, 2, 6, 10, 14);
    QuarterIs(Quarter(x2, 2, 6, 10, 14), 3, 7, 11, 15);
  }

  /** And then of its diagonals. */
  lemma {:induction false} DiagonalsAre(x: seq<word>)
    requires |x| == 16
    ensures var p, q := QuarterWords(x[0], x[5], x[10], x[15]), QuarterWords(x[1], x[6], x[11], x[12]);
      var r, s := QuarterWords(x[2], x[7], x[8], x[13]), QuarterWords(x[3], x[4], x[9], x[14]);
      Diagonals(x) == [p.0, q.0, r.0, s.0, s.1, p.1, q.1, r.1, r.2, s.2, p.2, q.2, q.3, r.3, s.3, p.3]
  {
    hide Quarter, QuarterWords;
    QuarterIs(x, 0, 5, 10, 15);
    var x1 := Quarter(x, 0, 5, 10, 15);
    QuarterIs(x1, 1, 6, 11, 12);
    var x2 := Quarter(x1, 1, 6, 11, 12);
    QuarterIs(x2, 2, 7, 8, 13);
    QuarterIs(Quarter(x2, 2, 7, 8, 13), 3, 4, 9, 14);
  }

  /** The state of section 2.3.2 of RFC 8439 before each double round, and after the last. */
  function VectorState(round: nat): (x: seq<word>)
    requires round <= 10
    ensures |x| == 16
  {
    match round
    case 0 =>
      [0x6170_7865, 0x3320_646e, 0x7962_2d32, 0x6b20_6574, 0x0302_0100, 0x0706_0504, 0x0b0a_0908, 0x0f0e_0d0c,
       0x1312_1110, 0x1716_1514, 0x1b1a_1918, 0x1f1e_1d1c, 0x0000_0001, 0x0900_0000, 0x4a00_0000, 0x0000_0000]
    case 1 =>
      [0xcd52_e917, 0x85ab_03b4, 0xb345_7395, 0xf96d_e7dd, 0xc4b7_cd22, 0x5c2e_187a, 0xc95e_b461, 0x316c_801a,
       0x7bf7_d740, 0x7edd_d644, 0xf1a1_bdf5, 0x7612_46ca, 0x6b0d_58a3, 0x6798_471a, 0xd737_f167, 0xf173_888d]
    case 2 =>
      [0xcf1a_7584, 0x0489_27ec, 0x5405_1fda, 0xc244_ff28, 0x901d_2f40, 0x7974_b81c, 0x378d_cfb4, 0xcd47_fd0e,
       0x2daf_b216, 0x27c8_9cd6, 0xcd3c_9aa0, 0x79fc_89c7, 0x10ae_f18d, 0x1621_8765, 0x68f7_6705, 0x04d6_ee22]
    case 3 =>
      [0x03a1_4032, 0x66b1_5927, 0x9d6b_6b42, 0xb84c_4109, 0xa714_3ae0, 0xa09b_33dd, 0xa5da_af88, 0x2fd9_1a73,
       0xc90c_6b18, 0x5a20_2413, 0xc20e_01b6, 0x72cd_6b74, 0xba35_d777, 0xb360_f1bf, 0x8178_315b, 0x2cd1_1b1a]
    case 4 =>
      [0x9a2d_3589, 0x0b23_fc4e, 0x40af_3b6b, 0xceea_8144, 0x0a1b_ffc6, 0x5e59_93f7, 0x9904_c2e7, 0x0d33_4718,
       0xe46c_6354, 0xc950_3229, 0x04fe_f5aa, 0xf893_3f72, 0x2687_d476, 0x54e6_5231, 0x3594_ffc5, 0x2b3b_b2ca]
    case 5 =>
      [0xc533_18c5, 0xca32_5d96, 0x7e7d_11cb, 0x3404_e2ca, 0x26d7_cf73, 0x6088_d379, 0xc0f0_e9bd, 0xe310_cdb9,
       0xae2c_a8db, 0x42f6_7c72, 0x7166_9aca, 0x975c_171d, 0x9e5e_c228, 0x7d85_a9f3, 0x201d_0756, 0x63fa_6953]
    case 6 =>
      [0x04a3_131a, 0x6617_6309, 0x0415_bab1, 0x61b8_80a2, 0x36cc_86c7, 0xbf8a_4465, 0xf77d_d720, 0xfc0b_dc90,
       0x07d1_3aca, 0xeb0b_e9af, 0x6159_9491, 0x9185_12dc, 0x33b6_686d, 0x795c_c671, 0xc004_9972, 0xa0a8_1bde]
    case 7 =>
      [0x9b70_f51f, 0x7ea8_ac11, 0x21e5_4da9, 0xca39_3b2f, 0x93b0_8686, 0x6a4c_50ae, 0x1921_2a5a, 0x9b03_2958,
       0xd839_165e, 0x4c06_e28a, 0xd3fd_e99e, 0x26ac_c13d, 0xa609_f555, 0x2c24_6549, 0x9515_1853, 0x2c84_7a0d]
    case 8 =>
      [0xca5c_85dd, 0x93a4_f90e, 0xd9f0_df58, 0x26dd_82dd, 0x9825_63f8, 0x712a_a9ff, 0x279a_61e8, 0x970f_72bd,
       0x1c25_931a, 0x5180_bb10, 0x779c_27e7, 0x5407_7e08, 0xa9b7_51fb, 0x382f_3ce2, 0x8db1_757d, 0xcc38_080b]
    case 9 =>
      [0xb6b8_7de6, 0x9a01_6148, 0x9385_9815, 0x4915_e6cc, 0xdc33_c122, 0x98e1_8fa3, 0x5ffb_e8fc, 0xf715_4b8b,
       0x28c1_fcb3, 0xc4b3_8f9d, 0x83e2_f5d7, 0x7d24_b98b, 0x2107_8b22, 0xb193_e7a3, 0xb2f4_9389, 0x6cde_6026]
    case _ =>
      [0x8377_78ab, 0xe238_d763, 0xa67a_e21e, 0x5950_bb2f, 0xc4f2_d0c7, 0xfc62_bb2f, 0x8fa0_18fc, 0x3f5e_c7b7,
       0x3352_71c2, 0xf294_89f3, 0xeabd_a8fc, 0x82e4_6ebd, 0xd19c_12b4, 0xb04e_16de, 0x9e83_d0cb, 0x4e3c_50a2]
  }

  lemma {:induction false} VectorFrom0(round: nat)
    requires round < 2
    ensures Diagonals(Columns(VectorState(round))) == VectorState(round + 1)
  {
    hide Columns, Diagonals;
    var x := VectorState(round);
    ColumnsAre(x);
    DiagonalsAre(Columns(x));
  }

  lemma {:induction false} VectorFrom2(round: nat)
    requires 2 <= round < 4
    ensures Diagonals(Columns(VectorState(round))) == VectorState(round + 1)
  {
    hide Columns, Diagonals;
    var x := VectorState(round);
    ColumnsAre(x);
    DiagonalsAre(Columns(x));
  }

  lemma {:induction false} VectorFrom4(round: nat)
    requires 4 <= round < 6
    ensures Diagonals(Columns(VectorState(round))) == VectorState(round + 1)
  {
    hide Columns, Diagonals;
    var x := VectorState(round);
    ColumnsAre(x);
    DiagonalsAre(Columns(x));
  }

  lemma {:induction false} VectorFrom6(round: nat)
    requires 6 <= round < 8
    ensures Diagonals(Columns(VectorState(round))) == VectorState(round + 1)
  {
    hide Columns, Diagonals;
    var x := VectorState(round);
    ColumnsAre(x);
    DiagonalsAre(Columns(x));
  }

  lemma {:induction false} VectorFrom8(round: nat)
    requires 8 <= round < 10
    ensures Diagonals(Columns(VectorState(round))) == VectorState(round + 1)
  {
    hide Columns, Diagonals;
    var x := VectorState(round);
    ColumnsAre(x);
    DiagonalsAre(Columns(x));
  }

  lemma {:induction false} VectorRounds(round: nat)
    requires round <= 10
    ensures DoubleRounds(VectorState(0), round) == VectorState(round)
  {
    hide Columns, Diagonals, VectorState;
    if round > 0 {
      VectorRounds(round - 1);
      if round <= 2 {
        VectorFrom0(round - 1);
      } else if round <= 4 {
        VectorFrom2(round - 1);
      } else if round <= 6 {
        VectorFrom4(round - 1);
      } else if round <= 8 {
        VectorFrom6(round - 1);
      } else {
        VectorFrom8(round - 1);
      }
    }
  }

  /** The key of that section: the bytes from zero up. */
  function VectorKey(): (key: seq<byte>)
    ensures |key| == 32
  {
    seq(32, i requires 0 <= i < 32 => i)
  }

  lemma {:induction false} VectorKeyWord(i: nat)
    requires i < 8
    ensures KeyWords(VectorKey())[i] == ToWord(0x0302_0100 + 0x0404_0404 * i)
  {
    LittleEndianFour(VectorKey()[4 * i..4 * i + 4]);
    hide LittleEndian, ToWord;
  }

  lemma {:induction false} ToWordIs(w: word, n: nat)
    requires n == w as nat
    ensures ToWord(n) == w
  {
    assert n < POW32 && n as word == w;
    DivideUnique(n, POW32, 0, n);
  }

  lemma {:induction false} VectorKeyWords()
    ensures KeyWords(VectorKey()) == [0x0302_0100, 0x0706_0504, 0x0b0a_0908, 0x0f0e_0d0c, 0x1312_1110, 0x1716_1514,
                                      0x1b1a_1918, 0x1f1e_1d1c]
  {
    hide KeyWords, VectorKey, ToWord;
    VectorKeyWord(0);
    ToWordIs(0x0302_0100, 0x0302_0100);
    VectorKeyWord(1);
    ToWordIs(0x0706_0504, 0x0706_0504);
    VectorKeyWord(2);
    ToWordIs(0x0b0a_0908, 0x0b0a_0908);
    VectorKeyWord(3);
    ToWordIs(0x0f0e_0d0c, 0x0f0e_0d0c);
    VectorKeyWord(4);
    ToWordIs(0x1312_1110, 0x1312_1110);
    VectorKeyWord(5);
    ToWordIs(0x1716_1514, 0x1716_1514);
    VectorKeyWord(6);
    ToWordIs(0x1b1a_1918, 0x1b1a_1918);
    VectorKeyWord(7);
    ToWordIs(0x1f1e_1d1c, 0x1f1e_1d1c);
  }

  lemma {:induction false} VectorNonce()
    ensures ToWord(1) == 1 && ToWord(0x0900_0000) == 0x0900_0000 && ToWord(0x4a00_0000) == 0x4a00_0000 && ToWord(0) == 0
  {
    hide ToWord;
    ToWordIs(1, 1);
    ToWordIs(0x0900_0000, 0x0900_0000);
    ToWordIs(0x4a00_0000, 0x4a00_0000);
    ToWordIs(0, 0);
  }

  lemma {:induction false} VectorInitial()
    ensures Initial(VectorKey(), Nonce(0x0900_0000, 0x4a00_0000, 0), 1) == VectorState(0)
  {
    hide KeyWords, VectorKey, ToWord;
    VectorKeyWords();
    VectorNonce();
  }

  lemma {:induction false} SumsAre(x: seq<word>, y: seq<word>)
    requires |x| == |y| == 16
    ensures Sums(x, y) == [Sum(x[0], y[0]), Sum(x[1], y[1]), Sum(x[2], y[2]), Sum(x[3], y[3]), Sum(x[4], y[4]),
                           Sum(x[5], y[5]), Sum(x[6], y[6]), Sum(x[7], y[7]), Sum(x[8], y[8]), Sum(x[9], y[9]),
                           Sum(x[10], y[10]), Sum(x[11], y[11]), Sum(x[12], y[12]), Sum(x[13], y[13]),
                           Sum(x[14], y[14]), Sum(x[15], y[15])]
  {
    hide Sum;
    Elements(Sums(x, y));
  }

  lemma {:induction false} Elements(s: seq<word>)
    requires |s| == 16
    ensures s == [s[0], s[1], s[2], s[3], s[4], s[5], s[6], s[7], s[8], s[9], s[10], s[11], s[12], s[13], s[14], s[15]]
  {
  }

  lemma {:induction false} VectorSums()
    ensures Rounds(VectorState(0)) ==
            [0xe4e7_f110, 0x1559_3bd1, 0x1fdd_0f50, 0xc471_20a3, 0xc7f4_d1c7, 0x0368_c033, 0x9aaa_2204, 0x4e6c_d4c3,
             0x4664_82d2, 0x09aa_9f07, 0x05d7_c214, 0xa202_8bd9, 0xd19c_12b5, 0xb94e_16de, 0xe883_d0cb, 0x4e3c_50a2]
  {
    hide DoubleRounds, Sums;
    VectorRounds(10);
    SumsAre(VectorState(10), VectorState(0));
  }

  /** The words of the block of section 2.3.2 of RFC 8439. */
  lemma {:induction false} BlockVector()
    ensures Rounds(Initial(VectorKey(), Nonce(0x0900_0000, 0x4a00_0000, 0), 1)) ==
            [0xe4e7_f110, 0x1559_3bd1, 0x1fdd_0f50, 0xc471_20a3, 0xc7f4_d1c7, 0x0368_c033, 0x9aaa_2204, 0x4e6c_d4c3,
             0x4664_82d2, 0x09aa_9f07, 0x05d7_c214, 0xa202_8bd9, 0xd19c_12b5, 0xb94e_16de, 0xe883_d0cb, 0x4e3c_50a2]
  {
    hide Rounds, Initial, VectorState;
    VectorInitial();
    VectorSums();
  }

  /** The state of a key, nonce and counter: the constant, and then their words in this order. */
  lemma {:induction false} InitialIs(k: seq<word>, counter: word, low: word, middle: word, high: word)
    requires |k| == 8
    ensures Initial(Serialize(k), Nonce(low as nat, middle as nat, high as nat), counter as nat) ==
            [0x6170_7865, 0x3320_646e, 0x7962_2d32, 0x6b20_6574] + k + [counter, low, middle, high]
  {
    hide ToWord, Serialize, LittleEndian;
    ToWordIs(counter, counter as nat);
    ToWordIs(low, low as nat);
    ToWordIs(middle, middle as nat);
    ToWordIs(high, high as nat);
    forall i | 0 <= i < 8
      ensures KeyWords(Serialize(k))[i] == k[i]
    {
      SerializedAt(k, i);
      ToWordIs(k[i], k[i] as nat);
    }
    assert KeyWords(Serialize(k)) == k;
  }

  /** Each word is serialized from its lowest byte, at its place. */
  lemma {:induction false} SerializedAt(x: seq<word>, i: nat)
    requires i < |x|
    ensures LittleEndian(Serialize(x)[4 * i..4 * i + 4]) == x[i] as nat
    decreases i
  {
    hide LittleEndian, ToLittleEndian, Pow256;
    var first := ToLittleEndian(x[0] as nat, 4);
    if i == 0 {
      WordFits(x[0]);
      ReadWrite(x[0] as nat, 4);
      assert Serialize(x)[0..4] == first;
    } else {
      SerializedAt(x[1..], i - 1);
      assert Serialize(x)[4 * i..4 * i + 4] == Serialize(x[1..])[4 * (i - 1)..4 * (i - 1) + 4];
    }
  }

  lemma {:induction false} WordFits(w: word)
    ensures w as nat < Pow256(4)
  {
  }

  // ---- The same over wide words, a block for each lane ----

  type wide = seq<word>

  ghost predicate IsWide(x: seq<wide>, lanes: nat) {
    |x| == 16 && forall i :: 0 <= i < 16 ==> |x[i]| == lanes
  }

  /** The state that a lane of wide words holds. */
  function Lane(x: seq<wide>, lane: nat): (r: seq<word>)
    requires |x| == 16 && forall i :: 0 <= i < 16 ==> lane < |x[i]|
    ensures |r| == 16
  {
    seq(16, i requires 0 <= i < 16 => x[i][lane])
  }

  function AddLanes(a: wide, b: wide): (r: wide)
    requires |a| == |b|
    ensures |r| == |a|
  {
    seq(|a|, i requires 0 <= i < |a| => Sum(a[i], b[i]))
  }

  function XorRotateLanes(a: wide, b: wide, bits: word): (r: wide)
    requires |a| == |b| && bits <= 32
    ensures |r| == |a|
  {
    seq(|a|, i requires 0 <= i < |a| => XorRotate(a[i], b[i], bits))
  }

  function WideAddStep(x: seq<wide>, lanes: nat, a: nat, b: nat): (r: seq<wide>)
    requires IsWide(x, lanes) && a < 16 && b < 16
    ensures IsWide(r, lanes)
  {
    x[a := AddLanes(x[a], x[b])]
  }

  function WideXorRotateStep(x: seq<wide>, lanes: nat, d: nat, a: nat, bits: word): (r: seq<wide>)
    requires IsWide(x, lanes) && d < 16 && a < 16 && bits <= 32
    ensures IsWide(r, lanes)
  {
    x[d := XorRotateLanes(x[d], x[a], bits)]
  }

  function WideHalfQuarter(x: seq<wide>, lanes: nat, a: nat, b: nat, c: nat, d: nat, first: word, second: word):
    (r: seq<wide>)
    requires IsWide(x, lanes) && a < 16 && b < 16 && c < 16 && d < 16 && first <= 32 && second <= 32
    ensures IsWide(r, lanes)
  {
    var y := WideXorRotateStep(WideAddStep(x, lanes, a, b), lanes, d, a, first);
    WideXorRotateStep(WideAddStep(y, lanes, c, d), lanes, b, c, second)
  }

  function WideQuarter(x: seq<wide>, lanes: nat, a: nat, b: nat, c: nat, d: nat): (r: seq<wide>)
    requires IsWide(x, lanes) && a < 16 && b < 16 && c < 16 && d < 16
    ensures IsWide(r, lanes)
  {
    WideHalfQuarter(WideHalfQuarter(x, lanes, a, b, c, d, 16, 12), lanes, a, b, c, d, 8, 7)
  }

  function WideColumns(x: seq<wide>, lanes: nat): (r: seq<wide>)
    requires IsWide(x, lanes)
    ensures IsWide(r, lanes)
  {
    WideQuarter(WideQuarter(WideQuarter(WideQuarter(x, lanes, 0, 4, 8, 12), lanes, 1, 5, 9, 13), lanes, 2, 6, 10, 14),
                lanes, 3, 7, 11, 15)
  }

  function WideDiagonals(x: seq<wide>, lanes: nat): (r: seq<wide>)
    requires IsWide(x, lanes)
    ensures IsWide(r, lanes)
  {
    WideQuarter(WideQuarter(WideQuarter(WideQuarter(x, lanes, 0, 5, 10, 15), lanes, 1, 6, 11, 12), lanes, 2, 7, 8, 13),
                lanes, 3, 4, 9, 14)
  }

  function WideDoubleRounds(x: seq<wide>, lanes: nat, count: nat): (r: seq<wide>)
    requires IsWide(x, lanes)
    ensures IsWide(r, lanes)
    decreases count
  {
    if count == 0 then x else WideDiagonals(WideColumns(WideDoubleRounds(x, lanes, count - 1), lanes), lanes)
  }

  function WideSums(x: seq<wide>, start: seq<wide>, lanes: nat): (r: seq<wide>)
    requires IsWide(x, lanes) && IsWide(start, lanes)
    ensures IsWide(r, lanes)
  {
    seq(16, i requires 0 <= i < 16 => AddLanes(x[i], start[i]))
  }

  function WideRounds(x: seq<wide>, lanes: nat): (r: seq<wide>)
    requires IsWide(x, lanes)
    ensures IsWide(r, lanes)
  {
    WideSums(WideDoubleRounds(x, lanes, 10), x, lanes)
  }

  lemma {:induction false} LaneAdd(x: seq<wide>, lanes: nat, i: nat, a: nat, b: nat)
    requires IsWide(x, lanes) && i < lanes && a < 16 && b < 16
    ensures Lane(WideAddStep(x, lanes, a, b), i) == AddStep(Lane(x, i), a, b)
  {
    hide Sum;
  }

  lemma {:induction false} LaneXorRotate(x: seq<wide>, lanes: nat, i: nat, d: nat, a: nat, bits: word)
    requires IsWide(x, lanes) && i < lanes && d < 16 && a < 16 && bits <= 32
    ensures Lane(WideXorRotateStep(x, lanes, d, a, bits), i) == XorRotateStep(Lane(x, i), d, a, bits)
  {
    hide XorRotate;
  }

  lemma {:induction false} LaneHalfQuarter(x: seq<wide>, lanes: nat, i: nat, a: nat, b: nat, c: nat, d: nat, first: word,
                                           second: word)
    requires IsWide(x, lanes) && i < lanes
    requires a < 16 && b < 16 && c < 16 && d < 16 && first <= 32 && second <= 32
    ensures Lane(WideHalfQuarter(x, lanes, a, b, c, d, first, second), i) ==
            HalfQuarter(Lane(x, i), a, b, c, d, first, second)
  {
    hide WideAddStep, WideXorRotateStep, AddStep, XorRotateStep, Lane, IsWide;
    LaneAdd(x, lanes, i, a, b);
    var x1 := WideAddStep(x, lanes, a, b);
    LaneXorRotate(x1, lanes, i, d, a, first);
    var x2 := WideXorRotateStep(x1, lanes, d, a, first);
    LaneAdd(x2, lanes, i, c, d);
    var x3 := WideAddStep(x2, lanes, c, d);
    LaneXorRotate(x3, lanes, i, b, c, second);
  }

  lemma {:induction false} LaneQuarter(x: seq<wide>, lanes: nat, i: nat, a: nat, b: nat, c: nat, d: nat)
    requires IsWide(x, lanes) && i < lanes && a < 16 && b < 16 && c < 16 && d < 16
    ensures Lane(WideQuarter(x, lanes, a, b, c, d), i) == Quarter(Lane(x, i), a, b, c, d)
  {
    hide WideHalfQuarter, HalfQuarter, Lane, IsWide;
    LaneHalfQuarter(x, lanes, i, a, b, c, d, 16, 12);
    LaneHalfQuarter(WideHalfQuarter(x, lanes, a, b, c, d, 16, 12), lanes, i, a, b, c, d, 8, 7);
  }

  lemma {:induction false} LaneColumns(x: seq<wide>, lanes: nat, i: nat)
    requires IsWide(x, lanes) && i < lanes
    ensures Lane(WideColumns(x, lanes), i) == Columns(Lane(x, i))
  {
    hide WideQuarter, Quarter, Lane, IsWide;
    LaneQuarter(x, lanes, i, 0, 4, 8, 12);
    var x1 := WideQuarter(x, lanes, 0, 4, 8, 12);
    LaneQuarter(x1, lanes, i, 1, 5, 9, 13);
    var x2 := WideQuarter(x1, lanes, 1, 5, 9, 13);
    LaneQuarter(x2, lanes, i, 2, 6, 10, 14);
    LaneQuarter(WideQuarter(x2, lanes, 2, 6, 10, 14), lanes, i, 3, 7, 11, 15);
  }

  lemma {:induction false} LaneDiagonals(x: seq<wide>, lanes: nat, i: nat)
    requires IsWide(x, lanes) && i < lanes
    ensures Lane(WideDiagonals(x, lanes), i) == Diagonals(Lane(x, i))
  {
    hide WideQuarter, Quarter, Lane, IsWide;
    LaneQuarter(x, lanes, i, 0, 5, 10, 15);
    var x1 := WideQuarter(x, lanes, 0, 5, 10, 15);
    LaneQuarter(x1, lanes, i, 1, 6, 11, 12);
    var x2 := WideQuarter(x1, lanes, 1, 6, 11, 12);
    LaneQuarter(x2, lanes, i, 2, 7, 8, 13);
    LaneQuarter(WideQuarter(x2, lanes, 2, 7, 8, 13), lanes, i, 3, 4, 9, 14);
  }

  lemma {:induction false} LaneDoubleRounds(x: seq<wide>, lanes: nat, i: nat, count: nat)
    requires IsWide(x, lanes) && i < lanes
    ensures Lane(WideDoubleRounds(x, lanes, count), i) == DoubleRounds(Lane(x, i), count)
    decreases count
  {
    hide WideColumns, WideDiagonals, Columns, Diagonals, Lane, IsWide;
    if count > 0 {
      LaneDoubleRounds(x, lanes, i, count - 1);
      var y := WideDoubleRounds(x, lanes, count - 1);
      LaneColumns(y, lanes, i);
      LaneDiagonals(WideColumns(y, lanes), lanes, i);
    }
  }

  /** Each lane of the wide rounds is the rounds of that lane. */
  lemma {:induction false} LaneRounds(x: seq<wide>, lanes: nat, i: nat)
    requires IsWide(x, lanes) && i < lanes
    ensures Lane(WideRounds(x, lanes), i) == Rounds(Lane(x, i))
  {
    hide DoubleRounds, WideDoubleRounds, Sum;
    LaneDoubleRounds(x, lanes, i, 10);
    var y := WideDoubleRounds(x, lanes, 10);
    assert Lane(WideSums(y, x, lanes), i) == Sums(Lane(y, i), Lane(x, i));
  }

  /** Words broadcast to all lanes, but for counters that lanes offset by their number. */
  function WideInitial(key: seq<byte>, nonce: Nonce, counter: nat, lanes: nat): (r: seq<wide>)
    requires |key| == 32
    ensures IsWide(r, lanes)
  {
    var x := Initial(key, nonce, counter);
    seq(16, i requires 0 <= i < 16 =>
      seq(lanes, lane requires 0 <= lane < lanes => if i == 12 then ToWord(counter + lane) else x[i]))
  }

  lemma {:induction false} LaneInitial(key: seq<byte>, nonce: Nonce, counter: nat, lanes: nat, i: nat)
    requires |key| == 32 && i < lanes
    ensures Lane(WideInitial(key, nonce, counter, lanes), i) == Initial(key, nonce, counter + i)
  {
    hide ToWord, KeyWords, Sigma;
    var x := Initial(key, nonce, counter);
    assert x[12 := ToWord(counter + i)] == Initial(key, nonce, counter + i);
  }

  /** The bytes of the lanes in order. */
  function SerializeLanes(x: seq<wide>, lanes: nat, count: nat): (r: seq<byte>)
    requires IsWide(x, lanes) && count <= lanes
    ensures |r| == BLOCK * count
  {
    if count == 0 then [] else SerializeLanes(x, lanes, count - 1) + Serialize(Lane(x, count - 1))
  }

  function XNext(key: seq<byte>, nonce: Nonce, counter: nat, lanes: nat): (r: seq<byte>)
    requires |key| == 32
    ensures |r| == BLOCK * lanes
  {
    SerializeLanes(WideRounds(WideInitial(key, nonce, counter, lanes), lanes), lanes, lanes)
  }

  /** Consecutive blocks from a counter. */
  ghost function Blocks(key: seq<byte>, nonce: Nonce, counter: nat, count: nat): (r: seq<byte>)
    requires |key| == 32
    ensures |r| == BLOCK * count
  {
    if count == 0 then [] else Blocks(key, nonce, counter, count - 1) + Block(key, nonce, counter + (count - 1))
  }

  lemma {:induction false} LanesAreBlocks(key: seq<byte>, nonce: Nonce, counter: nat, lanes: nat, count: nat)
    requires |key| == 32 && count <= lanes
    ensures SerializeLanes(WideRounds(WideInitial(key, nonce, counter, lanes), lanes), lanes, count) ==
            Blocks(key, nonce, counter, count)
  {
    hide Rounds, WideRounds, WideInitial, Initial, Lane, IsWide, Serialize;
    if count > 0 {
      LanesAreBlocks(key, nonce, counter, lanes, count - 1);
      LaneRounds(WideInitial(key, nonce, counter, lanes), lanes, count - 1);
      LaneInitial(key, nonce, counter, lanes, count - 1);
    }
  }

  /** A wide pass generates as many sequential blocks as it has lanes. */
  lemma {:induction false} XNextIsBlocks(key: seq<byte>, nonce: Nonce, counter: nat, lanes: nat)
    requires |key| == 32
    ensures XNext(key, nonce, counter, lanes) == Blocks(key, nonce, counter, lanes)
  {
    LanesAreBlocks(key, nonce, counter, lanes, lanes);
  }

  /** The counter is a word: it wraps. */
  lemma {:induction false} BlockWraps(key: seq<byte>, nonce: Nonce, counter: nat)
    requires |key| == 32
    ensures Block(key, nonce, counter % POW32) == Block(key, nonce, counter)
  {
    assert ToWord(counter % POW32) == ToWord(counter);
    hide ToWord, Rounds, Serialize, KeyWords, Sigma;
  }
}
