/** The distinguished encoding rules of X.690: tagged lengths and contents, unsigned integers and
    times (section 4.1.2.5 of RFC 5280). */
module Der {
  import opened Common
  import opened Words
  import opened Radix
  import opened Calendar

  const LONG_FORM: nat := 0x80
  const HIGH_TAG_NUMBER: nat := 0x1f

  // ---- Lengths and contents ----

  lemma {:induction false} DigitsWidth(n: nat)
    ensures n < Power(256, |Digits(n, 256)|)
    ensures n > 0 ==> Digits(n, 256) != [] && Power(256, |Digits(n, 256)| - 1) <= n
  {
    if n > 0 {
      DigitsWidth(n / 256);
      assert n == 256 * (n / 256) + n % 256;
      var w := |Digits(n / 256, 256)|;
      assert Power(256, w + 1) == 256 * Power(256, w);
      if w > 0 {
        assert Power(256, w) == 256 * Power(256, w - 1);
      }
    }
  }

  lemma {:induction false} DigitsAtMost(n: nat, width: nat)
    requires n < Power(256, width)
    ensures |Digits(n, 256)| <= width
  {
    hide Power;
    DigitsWidth(n);
    if |Digits(n, 256)| > width {
      PowerGrows(256, width, |Digits(n, 256)| - 1);
    }
  }

  lemma {:induction false} Powers()
    ensures Power(256, 0) == 1 && Power(256, 1) == 256 && Power(256, 4) == POW32 && Power(256, 8) == POW64
  {
    assert Power(256, 2) == 0x1_0000 && Power(256, 3) == 0x100_0000;
    assert Power(256, 5) == 256 * Power(256, 4) && Power(256, 6) == 256 * Power(256, 5);
    assert Power(256, 7) == 256 * Power(256, 6);
  }

  /** A definite length of the fewest bytes. */
  ghost function LengthData(size: nat): seq<byte>
    requires size < POW64
  {
    DigitsValid(size, 256);
    Powers();
    DigitsAtMost(size, 8);
    var digits := Digits(size, 256);
    if size < LONG_FORM then [size] else [LONG_FORM + |digits|] + digits
  }

  ghost function Tlv(tag: byte, content: seq<byte>): seq<byte>
    requires |content| < POW64
  {
    [tag] + LengthData(|content|) + content
  }

  /** The tag, and the sizes of the header and of the content, at the front of data. */
  ghost function Next(data: seq<byte>): Option<(byte, nat, nat)> {
    if |data| < 2 || data[0] % 32 == HIGH_TAG_NUMBER then None
    else if data[1] < LONG_FORM then Sized(data, 2, data[1])
    else
      var bytes := data[1] - LONG_FORM;
      if bytes == 0 || bytes > 4 || |data| < 2 + bytes || data[2] == 0 then None
      else
        NumberBound(data[2..2 + bytes], 256);
        var length := Number(data[2..2 + bytes], 256);
        if length < LONG_FORM then None else Sized(data, 2 + bytes, length)
  }

  ghost function Sized(data: seq<byte>, header: nat, length: nat): Option<(byte, nat, nat)>
    requires |data| > 0
  {
    if header + length > |data| then None else Some((data[0], header, length))
  }

  /** Whether data begins with an encoding, and what follows it. */
  ghost predicate Begins(data: seq<byte>, tag: byte, content: seq<byte>, rest: seq<byte>) {
    var next := Next(data);
    && next.Some? && next.value.0 == tag
    && next.value.1 + next.value.2 <= |data|
    && content == data[next.value.1..next.value.1 + next.value.2] && rest == data[next.value.1 + next.value.2..]
  }

  lemma {:induction false} ShortBegins(data: seq<byte>, tag: byte, content: seq<byte>, rest: seq<byte>)
    requires |content| < LONG_FORM && tag % 32 != HIGH_TAG_NUMBER && data == [tag] + [|content|] + content + rest
    ensures Begins(data, tag, content, rest)
  {
    hide Number;
    assert data[2..2 + |content|] == content && data[2 + |content|..] == rest;
  }

  lemma {:induction false} LongBegins(data: seq<byte>, tag: byte, digits: seq<byte>, content: seq<byte>, rest: seq<byte>)
    requires tag % 32 != HIGH_TAG_NUMBER && 1 <= |digits| <= 4 && digits[0] != 0
    requires Number(digits, 256) == |content| >= LONG_FORM
    requires data == [tag] + [LONG_FORM + |digits|] + digits + content + rest
    ensures Begins(data, tag, content, rest)
  {
    var h := 2 + |digits|;
    assert data[2..h] == digits;
    hide Number;
    assert data[h..h + |content|] == content && data[h + |content|..] == rest;
  }

  /** What is accepted at the front of data is exactly what is written for its tag and content. */
  lemma {:induction false} BeginsIff(data: seq<byte>, tag: byte, content: seq<byte>, rest: seq<byte>)
    ensures Begins(data, tag, content, rest) <==>
            tag % 32 != 31 && |content| < 0x1_0000_0000 && data == Tlv(tag, content) + rest
  {
    if Begins(data, tag, content, rest) {
      BeginsIsTlv(data, tag, content, rest);
    }
    if tag % 32 != HIGH_TAG_NUMBER && |content| < POW32 && data == Tlv(tag, content) + rest {
      TlvBegins(tag, content, rest);
    }
  }

  lemma {:induction false} TlvBegins(tag: byte, content: seq<byte>, rest: seq<byte>)
    requires tag % 32 != HIGH_TAG_NUMBER && |content| < POW32
    ensures Begins(Tlv(tag, content) + rest, tag, content, rest)
  {
    hide Number, Digits, Power, Begins;
    var size := |content|;
    var data := Tlv(tag, content) + rest;
    if size < LONG_FORM {
      assert data == [tag] + [size] + content + rest;
      ShortBegins(data, tag, content, rest);
    } else {
      var digits := Digits(size, 256);
      DigitsValid(size, 256);
      NumberDigits(size, 256);
      Powers();
      DigitsAtMost(size, 4);
      assert data == [tag] + [LONG_FORM + |digits|] + digits + content + rest;
      LongBegins(data, tag, digits, content, rest);
    }
  }

  lemma {:induction false} ShortIsTlv(data: seq<byte>, content: seq<byte>, rest: seq<byte>)
    requires |data| >= 2 && data[1] < LONG_FORM && |content| == data[1] && data[2..] == content + rest
    ensures data == Tlv(data[0], content) + rest
  {
    hide Number, Digits, Power;
    assert data == [data[0]] + [data[1]] + data[2..];
  }

  lemma {:induction false} LongIsTlv(data: seq<byte>, digits: seq<byte>, content: seq<byte>, rest: seq<byte>)
    requires |data| >= 2 && 1 <= |digits| <= 4 && digits[0] != 0 && data[1] == LONG_FORM + |digits|
    requires LONG_FORM <= Number(digits, 256) == |content| && data[2..] == digits + content + rest
    ensures |content| < POW32 && data == Tlv(data[0], content) + rest
  {
    hide Number, Digits, Power;
    Powers();
    NumberBound(digits, 256);
    DigitsNumber(digits, 256);
    PowerGrows(256, |digits|, 4);
    assert LengthData(|content|) == [data[1]] + digits;
    hide LengthData;
    LongJoined(data, digits, content, rest);
  }

  lemma {:induction false} LongJoined(data: seq<byte>, digits: seq<byte>, content: seq<byte>, rest: seq<byte>)
    requires |data| >= 2 && data[2..] == digits + content + rest
    ensures data == [data[0]] + ([data[1]] + digits) + content + rest
  {
    assert data == [data[0]] + [data[1]] + data[2..];
  }

  lemma {:induction false} BeginsIsTlv(data: seq<byte>, tag: byte, content: seq<byte>, rest: seq<byte>)
    requires Begins(data, tag, content, rest)
    ensures tag % 32 != HIGH_TAG_NUMBER && |content| < POW32 && data == Tlv(tag, content) + rest
  {
    hide Number, Tlv;
    var (t, header, length) := Next(data).value;
    if data[1] < LONG_FORM {
      assert data[2..] == content + rest;
      ShortIsTlv(data, content, rest);
    } else {
      assert data[2..] == data[2..header] + content + rest;
      LongIsTlv(data, data[2..header], content, rest);
    }
  }

  // ---- The writer ----

  function BitWidth(n: nat): nat {
    if n == 0 then 0 else 1 + BitWidth(n / 2)
  }

  function ByteWidth(n: nat): nat {
    (BitWidth(n) + 7) / 8
  }

  lemma {:induction false} BitWidthAtMost(n: nat, bits: nat)
    ensures BitWidth(n) <= bits <==> n < Pow2(bits)
    decreases bits
  {
    if bits > 0 && n > 0 {
      BitWidthAtMost(n / 2, bits - 1);
    }
  }

  lemma {:induction false} Pow2Bytes(bytes: nat)
    ensures Pow2(8 * bytes) == Power(256, bytes)
  {
    if bytes > 0 {
      Pow2Bytes(bytes - 1);
      Pow2Sum(8, 8 * (bytes - 1));
      assert Pow2(8) == 256;
      hide Pow2;
    }
  }

  /** The bytes counted by bit width are the digits of base 256. */
  lemma {:induction false} ByteWidthIs(n: nat)
    ensures ByteWidth(n) == |Digits(n, 256)|
  {
    hide BitWidth, Pow2, Power, Digits;
    var w := |Digits(n, 256)|;
    DigitsWidth(n);
    BitWidthAtMost(n, 8 * w);
    Pow2Bytes(w);
    if w > 0 {
      DigitsValid(n, 256);
      BitWidthAtMost(n, 8 * (w - 1));
      Pow2Bytes(w - 1);
    }
  }

  function ShiftRightBytes(value: nat, bytes: nat): nat {
    if bytes == 0 then value else ShiftRightBytes(value, bytes - 1) / 256
  }

  /** Each byte shifted out is a digit less. */
  lemma {:induction false} DigitsShifted(n: nat, bytes: nat)
    requires bytes <= |Digits(n, 256)|
    ensures |Digits(ShiftRightBytes(n, bytes), 256)| == |Digits(n, 256)| - bytes
    ensures bytes > 0 ==> Digits(ShiftRightBytes(n, bytes - 1), 256) ==
                          Digits(ShiftRightBytes(n, bytes), 256) + [ShiftRightBytes(n, bytes - 1) % 256]
  {
    if bytes > 0 {
      DigitsShifted(n, bytes - 1);
      DigitsValid(ShiftRightBytes(n, bytes - 1), 256);
    }
  }

  class Writer {
    var data: seq<byte>

    constructor ()
      ensures data == []
    {
      data := [];
    }

    method Write(tag: byte, content: seq<byte>)
      requires |content| < POW64
      modifies this
      ensures data == old(data) + Tlv(tag, content)
    {
      var size := |content|;
      data := data + [tag];
      var length := WriteLength(size);
      data := data + length;
      data := data + content;
    }

    /** An unsigned magnitude, minimal, with a sign byte if required. */
    method WriteInteger(magnitude: seq<byte>)
      requires |magnitude| + 1 < POW64
      modifies this
      ensures |IntegerContent(Magnitude(magnitude))| < POW64
      ensures data == old(data) + Tlv(INTEGER_TAG, IntegerContent(Magnitude(magnitude)))
    {
      hide Tlv, IntegerContent, Number;
      var at: nat := 0;
      while |magnitude| - at > 1 && magnitude[at] == 0
        invariant at <= |magnitude| && (at == |magnitude| ==> at == 0)
        invariant forall i :: 0 <= i < at ==> magnitude[i] == 0
      {
        at := at + 1;
      }
      var digits := magnitude[at..];
      var content := if digits == [] || digits[0] >= 128 then [0] + digits else digits;
      StrippedContent(magnitude, at);
      Write(INTEGER_TAG, content);
    }

    method WriteUnsigned(value: nat)
      requires value < POW64
      modifies this
      ensures |IntegerContent(value)| < POW64
      ensures data == old(data) + Tlv(INTEGER_TAG, IntegerContent(value))
    {
      hide Tlv, IntegerContent;
      BigEndianNumber(value, 8);
      Powers();
      hide Power;
      WriteInteger(BigEndian(value, 8));
    }

    method WriteTime(seconds: nat)
      modifies this
      ensures |TimeContent(seconds).1| < POW64
      ensures data == old(data) + Tlv(if TimeContent(seconds).0 then UTC_TIME_TAG else GENERALIZED_TIME_TAG,
                                      TimeContent(seconds).1)
    {
      hide Tlv, Decimal, ToDate;
      var clock := seconds % SECONDS_PER_DAY;
      var d := ToDate(seconds / SECONDS_PER_DAY);
      var utc := IsUtc(d);
      var shown := if utc then d.year % 100 else d.year;
      var text := Append([], shown, YearDigits(utc));
      text := Append(text, d.month, 2);
      text := Append(text, d.day, 2);
      text := Append(text, clock / 3600, 2);
      text := Append(text, (clock % 3600) / 60, 2);
      text := Append(text, clock % 60, 2);
      text := text + [ZULU];
      assert text == TimeContent(seconds).1;
      Write(if utc then UTC_TIME_TAG else GENERALIZED_TIME_TAG, text);
    }
  }

  ghost function Magnitude(bytes: seq<byte>): nat {
    NumberBound(bytes, 256);
    Number(bytes, 256)
  }

  function BigEndian(value: nat, count: nat): (r: seq<byte>)
    ensures |r| == count
  {
    if count == 0 then [] else BigEndian(value / 256, count - 1) + [value % 256]
  }

  lemma {:induction false} BigEndianNumber(value: nat, count: nat)
    requires value < Power(256, count)
    ensures Number(BigEndian(value, count), 256) == value
  {
    if count > 0 {
      assert Power(256, count) == 256 * Power(256, count - 1);
      BigEndianNumber(value / 256, count - 1);
      assert BigEndian(value, count)[..count - 1] == BigEndian(value / 256, count - 1);
    }
  }

  lemma {:induction false} StrippedContent(magnitude: seq<byte>, at: nat)
    requires at <= |magnitude| && (at == |magnitude| ==> at == 0) && forall i :: 0 <= i < at ==> magnitude[i] == 0
    requires |magnitude| - at > 1 ==> magnitude[at] != 0
    ensures var digits := magnitude[at..];
      IntegerContent(Magnitude(magnitude)) == if digits == [] || digits[0] >= 128 then [0] + digits else digits
  {
    hide Number, Digits;
    LeadingZeros(magnitude, at, 256);
    var digits := magnitude[at..];
    if digits == [0] {
      ZeroDigits(digits);
    } else {
      DigitsNumber(digits, 256);
    }
  }

  /** Appends the decimal digits of a number, from the highest. */
  method Append(text: seq<byte>, value: nat, count: nat) returns (out: seq<byte>)
    ensures out == text + Decimal(value, count)
  {
    out := text;
    assert Decimal(ShiftRightDigits(value, count), 0) == [];
    var digit: nat := count;
    while digit > 0
      invariant digit <= count && out == text + Decimal(ShiftRightDigits(value, digit), count - digit)
    {
      hide Decimal;
      DecimalNext(ShiftRightDigits(value, digit - 1), count - digit);
      out := out + [DIGIT_ZERO + ShiftRightDigits(value, digit - 1) % 10];
      digit := digit - 1;
    }
  }

  /** A number less its last decimal digits. */
  function ShiftRightDigits(value: nat, digits: nat): nat {
    if digits == 0 then value else ShiftRightDigits(value, digits - 1) / 10
  }

  lemma {:induction false} DecimalNext(value: nat, count: nat)
    ensures Decimal(value, count + 1) == Decimal(value / 10, count) + [DIGIT_ZERO + value % 10]
  {
  }

  method WriteLength(size: nat) returns (length: seq<byte>)
    requires size < POW64
    ensures length == LengthData(size)
  {
    hide Digits, Power, ByteWidth, ShiftRightBytes;
    if size < LONG_FORM {
      return [size];
    }
    var bytes := ByteWidth(size);
    ByteWidthIs(size);
    Powers();
    DigitsAtMost(size, 8);
    length := [LONG_FORM + bytes];
    DigitsShifted(size, bytes);
    var digits: seq<byte> := [];
    var at: nat := bytes;
    while at > 0
      invariant at <= bytes && digits == Digits(ShiftRightBytes(size, at), 256)
    {
      DigitsShifted(size, at);
      digits := digits + [ShiftRightBytes(size, at - 1) % 256];
      at := at - 1;
    }
    assert ShiftRightBytes(size, 0) == size by {
      ShiftNone(size);
    }
    length := length + digits;
  }

  lemma {:induction false} ShiftNone(n: nat)
    ensures ShiftRightBytes(n, 0) == n
  {
  }

  // ---- Unsigned integers ----

  const INTEGER_TAG: byte := 0x02
  const UTC_TIME_TAG: byte := 0x17
  const GENERALIZED_TIME_TAG: byte := 0x18

  /** The content of an encoding at the front, if it has the tag, and what follows it. */
  ghost function Content(data: seq<byte>, tag: byte): Option<(seq<byte>, seq<byte>)> {
    var next := Next(data);
    if next.None? || next.value.0 != tag then None
    else
      NextFits(data);
      var end := next.value.1 + next.value.2;
      Some((data[next.value.1..end], data[end..]))
  }

  lemma {:induction false} NextFits(data: seq<byte>)
    ensures Next(data).Some? ==> Next(data).value.1 + Next(data).value.2 <= |data|
  {
    hide Number;
  }

  lemma {:induction false} ContentIff(data: seq<byte>, tag: byte, content: seq<byte>, rest: seq<byte>)
    requires tag % 32 != HIGH_TAG_NUMBER
    ensures Content(data, tag) == Some((content, rest)) <==> |content| < POW32 && data == Tlv(tag, content) + rest
  {
    NextFits(data);
    hide Next, Tlv;
    BeginsIff(data, tag, content, rest);
  }

  /** Minimal two's complement. */
  predicate IsInteger(content: seq<byte>) {
    && content != []
    && (|content| > 1 ==> !(content[0] == 0 && content[1] < 128) && !(content[0] == 255 && content[1] >= 128))
  }

  /** The number of a content, if it is not negative and is a word. */
  ghost function UnsignedOf(content: seq<byte>): Option<nat> {
    if !IsInteger(content) || content[0] >= 128 then None
    else
      var digits := if content[0] == 0 && |content| > 1 then content[1..] else content;
      NumberBound(digits, 256);
      if |digits| > 8 then None else Some(Number(digits, 256))
  }

  /** The digits of a number, with a zero before them if they would read as negative or are none. */
  ghost function IntegerContent(n: nat): (r: seq<byte>)
    ensures |r| <= 1 + |Digits(n, 256)|
  {
    DigitsValid(n, 256);
    var digits := Digits(n, 256);
    if digits == [] || digits[0] >= 128 then [0] + digits else digits
  }

  lemma {:induction false} UnsignedIsContent(content: seq<byte>, value: nat)
    requires UnsignedOf(content) == Some(value)
    ensures value < POW64 && content == IntegerContent(value)
  {
    hide Power, Digits, Number;
    Powers();
    if content[0] == 0 && |content| > 1 {
      var digits := content[1..];
      NumberBound(digits, 256);
      DigitsNumber(digits, 256);
      PowerGrows(256, |digits|, 8);
      assert content == [0] + digits;
    } else if content[0] == 0 {
      ZeroDigits(content);
    } else {
      NumberBound(content, 256);
      DigitsNumber(content, 256);
      PowerGrows(256, |content|, 8);
    }
  }

  lemma {:induction false} ZeroDigits(content: seq<byte>)
    requires |content| == 1 && content[0] == 0
    ensures Number(content, 256) == 0 && Digits(0, 256) == [] && content == [0]
  {
    assert content[..0] == [];
  }

  lemma {:induction false} ContentIsUnsigned(value: nat)
    requires value < POW64
    ensures UnsignedOf(IntegerContent(value)) == Some(value)
  {
    hide Power, Digits, Number;
    Powers();
    DigitsValid(value, 256);
    NumberDigits(value, 256);
    DigitsAtMost(value, 8);
    var digits := Digits(value, 256);
    if digits == [] {
      ZeroDigits([0]);
      assert IntegerContent(value) == [0];
    } else if digits[0] >= 128 {
      assert ([0] + digits)[1..] == digits;
    }
  }

  /** Each word has exactly one content that is read as it. */
  lemma {:induction false} UnsignedIff(content: seq<byte>, value: nat)
    ensures UnsignedOf(content) == Some(value) <==> value < POW64 && content == IntegerContent(value)
  {
    if UnsignedOf(content) == Some(value) {
      UnsignedIsContent(content, value);
    }
    if value < POW64 && content == IntegerContent(value) {
      ContentIsUnsigned(value);
    }
  }

  ghost function ReadWord(data: seq<byte>): Option<(nat, seq<byte>)> {
    var content := Content(data, INTEGER_TAG);
    if content.None? || UnsignedOf(content.value.0).None? then None
    else Some((UnsignedOf(content.value.0).value, content.value.1))
  }

  lemma {:induction false} ContentSmall(value: nat)
    requires value < POW64
    ensures |IntegerContent(value)| <= 9
  {
    hide Power, Digits;
    Powers();
    DigitsAtMost(value, 8);
  }

  /** Words are read from what is written for them, and from nothing else. */
  lemma {:induction false} WordIff(data: seq<byte>, value: nat, rest: seq<byte>)
    requires value < POW64
    ensures |IntegerContent(value)| < POW64
    ensures ReadWord(data) == Some((value, rest)) <==> data == Tlv(INTEGER_TAG, IntegerContent(value)) + rest
  {
    hide Content, UnsignedOf, IntegerContent, Tlv;
    ContentSmall(value);
    ContentIff(data, INTEGER_TAG, IntegerContent(value), rest);
    UnsignedIff(IntegerContent(value), value);
    var content := Content(data, INTEGER_TAG);
    if content.Some? {
      UnsignedIff(content.value.0, value);
    }
  }

  // ---- Times ----

  const ZULU: byte := 0x5a
  const DIGIT_ZERO: byte := 0x30
  const SECONDS_PER_DAY: nat := 86400

  /** The last decimal digits of a number. */
  ghost function Decimal(value: nat, count: nat): (r: seq<byte>)
    ensures |r| == count
  {
    if count == 0 then [] else Decimal(value / 10, count - 1) + [DIGIT_ZERO + value % 10]
  }

  predicate IsDigit(b: byte) {
    DIGIT_ZERO <= b <= DIGIT_ZERO + 9
  }

  ghost predicate AreDecimal(text: seq<byte>) {
    forall i :: 0 <= i < |text| ==> IsDigit(text[i])
  }

  ghost function DecimalNumber(text: seq<byte>): nat
    requires AreDecimal(text)
  {
    if text == [] then 0 else DecimalNumber(text[..|text| - 1]) * 10 + (text[|text| - 1] - DIGIT_ZERO)
  }

  lemma {:induction false} DecimalReads(value: nat, count: nat)
    ensures AreDecimal(Decimal(value, count))
    ensures count == 2 ==> DecimalNumber(Decimal(value, count)) == value % 100
    ensures count == 4 ==> DecimalNumber(Decimal(value, count)) == value % 10000
  {
    DecimalValue(value, count);
    assert Power(10, 2) == 100 && Power(10, 4) == 10000;
  }

  lemma {:induction false} DecimalValue(value: nat, count: nat)
    ensures AreDecimal(Decimal(value, count))
    ensures Power(10, count) > 0 && DecimalNumber(Decimal(value, count)) == value % Power(10, count)
  {
    PowerPositive(10, count);
    if count > 0 {
      DecimalValue(value / 10, count - 1);
      var text := Decimal(value, count);
      assert text[..count - 1] == Decimal(value / 10, count - 1);
      var p := Power(10, count - 1);
      assert Power(10, count) == 10 * p;
      hide Power, Decimal;
      RemainderTenth(value, p);
    }
  }

  lemma {:induction false} RemainderTenth(value: nat, p: nat)
    requires p > 0
    ensures value % (10 * p) == 10 * ((value / 10) % p) + value % 10
  {
    var h := value / 10;
    var q, r := h / p, h % p;
    assert h == q * p + r;
    assert q * (10 * p) == 10 * (q * p);
    DivideUnique(value, 10 * p, q, 10 * r + value % 10);
  }

  function YearDigits(utc: bool): nat {
    if utc then 2 else 4
  }

  datatype Clock = Clock(hour: nat, minute: nat, second: nat)

  /** The text of a date and a time of day. */
  ghost function TimeText(utc: bool, year: nat, month: nat, day: nat, c: Clock): seq<byte> {
    Decimal(year, YearDigits(utc)) + Decimal(month, 2) + Decimal(day, 2) + Decimal(c.hour, 2) + Decimal(c.minute, 2) +
    Decimal(c.second, 2) + [ZULU]
  }

  ghost function Field(text: seq<byte>, at: nat, count: nat): nat
    requires at + count < |text| && AreDecimal(text[..|text| - 1])
  {
    DecimalSlice(text, at, count);
    DecimalNumber(text[at..at + count])
  }

  lemma {:induction false} DecimalSlice(text: seq<byte>, at: nat, count: nat)
    requires at + count < |text| && AreDecimal(text[..|text| - 1])
    ensures AreDecimal(text[at..at + count])
  {
    var digits := text[..|text| - 1];
    assert text[at..at + count] == digits[at..at + count];
  }

  /** Years of two digits are of the century from 1950. */
  function FullYear(utc: bool, year: nat): nat {
    if !utc then year else if year < 50 then year + 2000 else year + 1900
  }

  function ToSeconds(d: Date, c: Clock): int
    requires IsDate(d)
  {
    ToDays(d) * SECONDS_PER_DAY + (c.hour * 3600 + c.minute * 60) + c.second
  }

  /** The time of a text, if it is one from the epoch. */
  ghost function TimeOf(utc: bool, text: seq<byte>): Option<int> {
    var y := YearDigits(utc);
    if |text| != y + 11 || !AreDecimal(text[..|text| - 1]) || text[|text| - 1] != ZULU then None
    else
      var d := Date(FullYear(utc, Field(text, 0, y)), Field(text, y, 2), Field(text, y + 2, 2));
      var c := Clock(Field(text, y + 4, 2), Field(text, y + 6, 2), Field(text, y + 8, 2));
      if IsDate(d) && c.hour < 24 && c.minute < 60 && c.second < 60 then Some(ToSeconds(d, c)) else None
  }

  function ClockOf(seconds: nat): Clock {
    var clock := seconds % SECONDS_PER_DAY;
    Clock(clock / 3600, (clock % 3600) / 60, clock % 60)
  }

  /** Whether a time is written with two digits of the year. */
  predicate IsUtc(d: Date) {
    d.year < 2050
  }

  ghost function TimeContent(seconds: nat): (bool, seq<byte>) {
    var d := ToDate(seconds / SECONDS_PER_DAY);
    (IsUtc(d), TimeText(IsUtc(d), if IsUtc(d) then d.year % 100 else d.year, d.month, d.day, ClockOf(seconds)))
  }

  lemma {:induction false} ClockRecovered(seconds: nat)
    ensures var c := ClockOf(seconds);
      c.hour < 24 && c.minute < 60 && c.second < 60 &&
      (seconds / SECONDS_PER_DAY) * SECONDS_PER_DAY + (c.hour * 3600 + c.minute * 60) + c.second == seconds
  {
    var clock := seconds % SECONDS_PER_DAY;
    assert clock % 60 == (clock % 3600) % 60;
  }

  lemma {:induction false} TextFields(utc: bool, year: nat, month: nat, day: nat, c: Clock)
    ensures var text, y := TimeText(utc, year, month, day, c), YearDigits(utc);
      && |text| == y + 11 && text[|text| - 1] == ZULU && AreDecimal(text[..|text| - 1])
      && Field(text, 0, y) == year % (if utc then 100 else 10000)
      && Field(text, y, 2) == month % 100 && Field(text, y + 2, 2) == day % 100
      && Field(text, y + 4, 2) == c.hour % 100 && Field(text, y + 6, 2) == c.minute % 100
      && Field(text, y + 8, 2) == c.second % 100
  {
    hide Decimal, DecimalNumber;
    var y := YearDigits(utc);
    var a, b, e := Decimal(year, y), Decimal(month, 2), Decimal(day, 2);
    var f, g, h := Decimal(c.hour, 2), Decimal(c.minute, 2), Decimal(c.second, 2);
    DecimalReads(year, y);
    DecimalReads(month, 2);
    DecimalReads(day, 2);
    DecimalReads(c.hour, 2);
    DecimalReads(c.minute, 2);
    DecimalReads(c.second, 2);
    var text := TimeText(utc, year, month, day, c);
    SixFields(a, b, e, f, g, h, text);
  }

  lemma {:induction false} SixFields(a: seq<byte>, b: seq<byte>, c: seq<byte>, d: seq<byte>, e: seq<byte>, f: seq<byte>,
                                     text: seq<byte>)
    requires |b| == |c| == |d| == |e| == |f| == 2 && text == a + b + c + d + e + f + [ZULU]
    requires AreDecimal(a) && AreDecimal(b) && AreDecimal(c) && AreDecimal(d) && AreDecimal(e) && AreDecimal(f)
    ensures var y := |a|;
      && |text| == y + 11 && text[|text| - 1] == ZULU && AreDecimal(text[..|text| - 1])
      && text[..y] == a && text[0..y] == a && text[y..y + 2] == b && text[y + 2..y + 4] == c && text[y + 4..y + 6] == d
      && text[y + 6..y + 8] == e && text[y + 8..y + 10] == f
  {
    assert text[..|text| - 1] == a + b + c + d + e + f;
  }

  lemma {:induction false} DaysBound(year: nat, month: nat)
    ensures DaysInMonth(year, month) <= 31
  {
  }

  /** The time read from the text of a date and a time of day. */
  lemma {:induction false} TextTime(utc: bool, year: nat, month: nat, day: nat, c: Clock)
    requires month < 100 && day < 100 && c.hour < 24 && c.minute < 60 && c.second < 60
    ensures var d := Date(FullYear(utc, year % (if utc then 100 else 10000)), month, day);
      TimeOf(utc, TimeText(utc, year, month, day, c)) == if IsDate(d) then Some(ToSeconds(d, c)) else None
  {
    hide Decimal, DecimalNumber, AreDecimal, Field, ToSeconds, IsDate, TimeText, FullYear;
    TextFields(utc, year, month, day, c);
  }

  /** The first of January 10000, in seconds since the epoch. */
  const YEAR_10000: nat := 253402300800

  lemma {:induction false} YearFits(seconds: nat)
    ensures ToDate(seconds / SECONDS_PER_DAY).year <= 9999 <==> seconds < YEAR_10000
  {
    hide ToDate;
    YearOrdered(seconds / SECONDS_PER_DAY, 10000);
  }

  /** Times are read back through the year 9999, and never after. */
  lemma {:induction false} TimeIff(seconds: nat)
    ensures var (utc, text) := TimeContent(seconds);
      TimeOf(utc, text) == Some(seconds) <==> seconds < YEAR_10000
  {
    YearFits(seconds);
    hide ToDays, ToDate, TimeText, TimeOf, ClockOf;
    var d, c := ToDate(seconds / SECONDS_PER_DAY), ClockOf(seconds);
    DaysOfDate(seconds / SECONDS_PER_DAY);
    ClockRecovered(seconds);
    DaysBound(d.year, d.month);
    hide DaysInMonth;
    var utc := IsUtc(d);
    var shown := if utc then d.year % 100 else d.year;
    TextTime(utc, shown, d.month, d.day, c);
    var read := Date(FullYear(utc, shown % (if utc then 100 else 10000)), d.month, d.day);
    YearShown(d);
    hide FullYear, IsUtc;
    if IsDate(read) && read != d {
      OtherDate(read, d, c, seconds);
    }
  }

  /** The first time after the year 9999 is written with the year 0000, which is not read. */
  lemma {:induction false} TimeNotRead()
    ensures ToDate(YEAR_10000 / SECONDS_PER_DAY) == Date(10000, 1, 1)
    ensures TimeContent(YEAR_10000) == (false, TimeText(false, 0, 1, 1, Clock(0, 0, 0)))
    ensures TimeOf(false, TimeText(false, 0, 1, 1, Clock(0, 0, 0))) == None
  {
    hide ToDate, ToDays, TimeText, TimeOf, DaysInMonth;
    FirstDay();
    DateOfDays(Date(10000, 1, 1));
    TextTime(false, 0, 1, 1, Clock(0, 0, 0));
    SameDigits();
  }

  lemma {:induction false} FirstDay()
    ensures IsDate(Date(10000, 1, 1)) && ToDays(Date(10000, 1, 1)) == YEAR_10000 / SECONDS_PER_DAY
  {
  }

  lemma {:induction false} SameDigits()
    ensures TimeText(false, 10000, 1, 1, Clock(0, 0, 0)) == TimeText(false, 0, 1, 1, Clock(0, 0, 0))
  {
    assert Decimal(10000, 4) == Decimal(0, 4) by {
      assert Decimal(1000, 3) == Decimal(0, 3) by {
        assert Decimal(100, 2) == Decimal(0, 2);
      }
    }
    hide Decimal;
  }

  lemma {:induction false} YearShown(d: Date)
    requires d.year >= EPOCH_YEAR
    ensures var utc := IsUtc(d);
      var shown := if utc then d.year % 100 else d.year;
      FullYear(utc, shown % (if utc then 100 else 10000)) == d.year <==> d.year <= 9999
  {
  }

  lemma {:induction false} OtherDate(read: Date, d: Date, c: Clock, seconds: nat)
    requires IsDate(read) && IsDate(d) && read != d && ToDays(d) == seconds / SECONDS_PER_DAY
    requires ToSeconds(d, c) == seconds
    ensures ToSeconds(read, c) != seconds
  {
    hide ToDays, ToDate, IsDate;
    DateOfDays(read);
    DateOfDays(d);
  }

  /** What is written for a time is read back, with what follows it, exactly through the year 9999. */
  lemma {:induction false} SecondsRead(seconds: nat, rest: seq<byte>)
    ensures var (utc, text) := TimeContent(seconds);
      var tag := if utc then UTC_TIME_TAG else GENERALIZED_TIME_TAG;
      |text| < POW64 && (ReadSeconds(Tlv(tag, text) + rest) == Some((seconds, rest)) <==> seconds < YEAR_10000)
  {
    hide TimeOf, Content, ToDate, LengthData, ClockOf, Decimal;
    var (utc, text) := TimeContent(seconds);
    TimeIff(seconds);
    var tag := if utc then UTC_TIME_TAG else GENERALIZED_TIME_TAG;
    var data := Tlv(tag, text) + rest;
    assert data[0] == tag;
    hide Tlv;
    ContentIff(data, tag, text, rest);
  }

  // ---- Times that are read and written again ----

  /** The first of January 2050, from which on times are written with all digits of the year. */
  const YEAR_2050: nat := 2524608000

  lemma {:induction false} DecimalOf(text: seq<byte>)
    requires AreDecimal(text)
    ensures Decimal(DecimalNumber(text), |text|) == text
    decreases |text|
  {
    if text != [] {
      var front, digit := text[..|text| - 1], text[|text| - 1] - DIGIT_ZERO;
      DecimalOf(front);
      assert IsDigit(text[|text| - 1]);
      var value := DecimalNumber(text);
      assert value / 10 == DecimalNumber(front) && value % 10 == digit;
      hide DecimalNumber, AreDecimal;
      assert text == front + [text[|text| - 1]];
    }
  }

  /** A field of a text is its digits. */
  lemma {:induction false} FieldDigits(text: seq<byte>, at: nat, count: nat)
    requires at + count < |text| && AreDecimal(text[..|text| - 1])
    ensures Decimal(Field(text, at, count), count) == text[at..at + count]
  {
    DecimalSlice(text, at, count);
    DecimalOf(text[at..at + count]);
  }

  /** A text that is read is the text of its fields. */
  lemma {:induction false} TextOfFields(utc: bool, text: seq<byte>)
    requires var y := YearDigits(utc);
      |text| == y + 11 && AreDecimal(text[..|text| - 1]) && text[|text| - 1] == ZULU
    ensures var y := YearDigits(utc);
      text == TimeText(utc, Field(text, 0, y), Field(text, y, 2), Field(text, y + 2, 2),
                       Clock(Field(text, y + 4, 2), Field(text, y + 6, 2), Field(text, y + 8, 2)))
  {
    hide Decimal, AreDecimal, Field;
    var y := YearDigits(utc);
    FieldDigits(text, 0, y);
    FieldDigits(text, y, 2);
    FieldDigits(text, y + 2, 2);
    FieldDigits(text, y + 4, 2);
    FieldDigits(text, y + 6, 2);
    FieldDigits(text, y + 8, 2);
    assert text == text[0..y] + text[y..y + 2] + text[y + 2..y + 4] + text[y + 4..y + 6] + text[y + 6..y + 8] +
                   text[y + 8..y + 10] + [ZULU];
  }

  /** The date and the time of day are recovered from the seconds. */
  lemma {:induction false} SecondsParts(d: Date, c: Clock)
    requires IsDate(d) && c.hour < 24 && c.minute < 60 && c.second < 60
    ensures ToSeconds(d, c) >= 0 && ToDate(ToSeconds(d, c) / SECONDS_PER_DAY) == d && ClockOf(ToSeconds(d, c)) == c
  {
    hide ToDays, ToDate, IsDate;
    DateOfDays(d);
    var clock := c.hour * 3600 + c.minute * 60 + c.second;
    var seconds := ToDays(d) * SECONDS_PER_DAY + clock;
    DivideUnique(seconds, SECONDS_PER_DAY, ToDays(d), clock);
    assert clock / 3600 == c.hour && clock % 3600 == c.minute * 60 + c.second;
  }

  lemma {:induction false} FieldBound(text: seq<byte>, at: nat)
    requires at + 2 < |text| && AreDecimal(text[..|text| - 1])
    ensures Field(text, at, 2) < 100
  {
    DecimalSlice(text, at, 2);
    var pair := text[at..at + 2];
    assert IsDigit(pair[0]) && IsDigit(pair[1]) && pair[..1][..0] == [];
    assert DecimalNumber(pair[..1]) == pair[0] - DIGIT_ZERO;
  }

  /** A time that is read from a text is written as that text exactly when it is of two digits of the
      year, or is not before 2050. */
  lemma {:induction false} TimeRewritten(utc: bool, text: seq<byte>, seconds: int)
    requires TimeOf(utc, text) == Some(seconds)
    ensures seconds >= 0 && (TimeContent(seconds) == (utc, text) <==> utc || seconds >= YEAR_2050)
  {
    hide Field, AreDecimal, TimeText, ToSeconds, ToDate, DaysInMonth;
    var y := YearDigits(utc);
    var year := Field(text, 0, y);
    var d := Date(FullYear(utc, year), Field(text, y, 2), Field(text, y + 2, 2));
    var c := Clock(Field(text, y + 4, 2), Field(text, y + 6, 2), Field(text, y + 8, 2));
    SecondsParts(d, c);
    TextOfFields(utc, text);
    if utc {
      FieldBound(text, 0);
    }
    YearIsBefore2050(seconds);
    hide ClockOf;
  }

  lemma {:induction false} YearIsBefore2050(seconds: nat)
    ensures ToDate(seconds / SECONDS_PER_DAY).year < 2050 <==> seconds < YEAR_2050
  {
    hide ToDate;
    YearOrdered(seconds / SECONDS_PER_DAY, 2050);
  }

  /** A time that is read is written as it was read exactly under the same condition. */
  lemma {:induction false} SecondsRewritten(data: seq<byte>, seconds: int, rest: seq<byte>)
    requires ReadSeconds(data) == Some((seconds, rest))
    ensures seconds >= 0 && data != []
    ensures var (utc, text) := TimeContent(seconds);
      var tag := if utc then UTC_TIME_TAG else GENERALIZED_TIME_TAG;
      |text| < POW64 && (data == Tlv(tag, text) + rest <==> data[0] == UTC_TIME_TAG || seconds >= YEAR_2050)
  {
    hide TimeOf, Content, Tlv, TimeContent;
    ReadTagged(data, seconds, rest);
    var was := data[0] == UTC_TIME_TAG;
    var before := if was then UTC_TIME_TAG else GENERALIZED_TIME_TAG;
    var content := Content(data, before).value.0;
    TimeRewritten(was, content, seconds);
    ContentIff(data, before, content, rest);
    TimeShort(seconds);
    var (utc, text) := TimeContent(seconds);
    var tag := if utc then UTC_TIME_TAG else GENERALIZED_TIME_TAG;
    ContentIff(data, tag, text, rest);
    if data == Tlv(tag, text) + rest {
      TlvTag(tag, text);
      assert data[0] == tag;
    }
  }

  lemma {:induction false} TlvTag(tag: byte, text: seq<byte>)
    requires |text| < POW64
    ensures |Tlv(tag, text)| > 0 && Tlv(tag, text)[0] == tag
  {
    hide LengthData;
  }

  lemma {:induction false} TimeShort(seconds: nat)
    ensures |TimeContent(seconds).1| < POW32
  {
    hide ToDate, ClockOf, Decimal;
  }

  /** What is read at all begins with one of the two tags. */
  lemma {:induction false} ReadTagged(data: seq<byte>, seconds: int, rest: seq<byte>)
    requires ReadSeconds(data) == Some((seconds, rest))
    ensures data != []
    ensures var utc := data[0] == UTC_TIME_TAG;
      var content := Content(data, if utc then UTC_TIME_TAG else GENERALIZED_TIME_TAG);
      content.Some? && content.value.1 == rest && TimeOf(utc, content.value.0) == Some(seconds)
  {
    hide TimeOf;
  }

  /** The epoch is read with four digits of the year, and written with two. */
  lemma {:induction false} EpochRewritten()
    ensures var text := TimeText(false, 1970, 1, 1, Clock(0, 0, 0));
      TimeOf(false, text) == Some(0) && TimeContent(0) != (false, text)
  {
    hide TimeText, TimeOf, ToDate;
    TextTime(false, 1970, 1, 1, Clock(0, 0, 0));
    Epoch();
    TimeRewritten(false, TimeText(false, 1970, 1, 1, Clock(0, 0, 0)), 0);
  }

  // ---- Encodings byte by byte ----

  /** The form of an encoding: the tag, a length below 128 as it is or else the count of its bytes with the
      top bit set and the bytes from the highest that is not zero, and the content. */
  lemma {:induction false} TlvForm(tag: byte, content: seq<byte>) returns (n: nat)
    requires |content| < POW64
    ensures var data := Tlv(tag, content);
      && (|content| < 128 ==> data == [tag, |content|] + content)
      && (|content| >= 128 ==>
            && 1 <= n <= 8 && |data| == 2 + n + |content| && data[0] == tag && data[1] == 128 + n && data[2] != 0
            && Number(data[2..2 + n], 256) == |content| && data[2 + n..] == content)
  {
    hide Number, Digits, Power;
    Powers();
    DigitsValid(|content|, 256);
    DigitsAtMost(|content|, 8);
    NumberDigits(|content|, 256);
    var digits := Digits(|content|, 256);
    n := |digits|;
    if |content| >= 128 {
      DigitsSome(|content|);
      assert Tlv(tag, content)[2..2 + n] == digits;
    }
  }

  lemma {:induction false} DigitsSome(n: nat)
    requires n > 0
    ensures Digits(n, 256) != []
  {
  }

  /** The encodings of some words. */
  lemma {:induction false} WordVectors()
    ensures |IntegerContent(0)| < POW64 && Tlv(INTEGER_TAG, IntegerContent(0)) == [0x02, 0x01, 0x00]
    ensures |IntegerContent(127)| < POW64 && Tlv(INTEGER_TAG, IntegerContent(127)) == [0x02, 0x01, 0x7f]
    ensures |IntegerContent(128)| < POW64 && Tlv(INTEGER_TAG, IntegerContent(128)) == [0x02, 0x02, 0x00, 0x80]
    ensures |IntegerContent(256)| < POW64 && Tlv(INTEGER_TAG, IntegerContent(256)) == [0x02, 0x02, 0x01, 0x00]
  {
    assert IntegerContent(0) == [0] && IntegerContent(127) == [127];
    assert IntegerContent(128) == [0, 128] && IntegerContent(256) == [1, 0];
    hide IntegerContent, LengthData;
    ShortForm(INTEGER_TAG, [0]);
    ShortForm(INTEGER_TAG, [127]);
    ShortForm(INTEGER_TAG, [0, 128]);
    ShortForm(INTEGER_TAG, [1, 0]);
  }

  lemma {:induction false} ShortForm(tag: byte, content: seq<byte>)
    requires |content| < 128
    ensures Tlv(tag, content) == [tag, |content|] + content
  {
    var n := TlvForm(tag, content);
  }

  lemma {:induction false} TwoDigits(value: nat)
    requires value < 100
    ensures Decimal(value, 2) == [0x30 + value / 10, 0x30 + value % 10]
  {
    assert Decimal(value / 10, 1) == [0x30 + value / 10 % 10];
  }

  lemma {:induction false} FourDigits(value: nat)
    requires value < 10000
    ensures Decimal(value, 4) ==
            [0x30 + value / 1000, 0x30 + value / 100 % 10, 0x30 + value / 10 % 10, 0x30 + value % 10]
  {
    TwoDigits(value / 100);
    assert Decimal(value, 4) == Decimal(value / 10, 3) + [0x30 + value % 10];
    assert Decimal(value / 10, 3) == Decimal(value / 10 / 10, 2) + [0x30 + value / 10 % 10];
  }

  /** The epoch is written 700101000000Z. */
  lemma {:induction false} EpochVector()
    ensures TimeContent(0) == (true, TimeText(true, 70, 1, 1, Clock(0, 0, 0)))
    ensures Tlv(UTC_TIME_TAG, TimeText(true, 70, 1, 1, Clock(0, 0, 0))) ==
            [0x17, 0x0d, 0x37, 0x30, 0x30, 0x31, 0x30, 0x31, 0x30, 0x30, 0x30, 0x30, 0x30, 0x30, 0x5a]
  {
    hide Decimal, Tlv, ToDate, ToDays, LengthData;
    TwoDigits(70);
    TwoDigits(1);
    TwoDigits(0);
    ShortForm(UTC_TIME_TAG, TimeText(true, 70, 1, 1, Clock(0, 0, 0)));
    Epoch();
    DateOfDays(Date(1970, 1, 1));
  }

  /** The first of January 2050 is written 20500101000000Z. */
  lemma {:induction false} FullYearVector()
    ensures TimeContent(YEAR_2050) == (false, TimeText(false, 2050, 1, 1, Clock(0, 0, 0)))
    ensures Tlv(GENERALIZED_TIME_TAG, TimeText(false, 2050, 1, 1, Clock(0, 0, 0))) ==
            [0x18, 0x0f, 0x32, 0x30, 0x35, 0x30, 0x30, 0x31, 0x30, 0x31, 0x30, 0x30, 0x30, 0x30, 0x30, 0x30, 0x5a]
  {
    hide Decimal, Tlv, ToDate, ToDays, LengthData;
    TwoDigits(1);
    TwoDigits(0);
    FourDigits(2050);
    ShortForm(GENERALIZED_TIME_TAG, TimeText(false, 2050, 1, 1, Clock(0, 0, 0)));
    Year2050();
    DateOfDays(Date(2050, 1, 1));
  }

  lemma {:induction false} Year2050()
    ensures IsDate(Date(2050, 1, 1)) && ToDays(Date(2050, 1, 1)) == YEAR_2050 / SECONDS_PER_DAY
  {
  }

  // ---- The reader ----

  class Reader {
    var data: seq<byte>
    var valid: bool

    constructor (data: seq<byte>)
      ensures valid && this.data == data
    {
      this.data, valid := data, true;
    }

    method Invalidate()
      modifies this
      ensures !valid && data == []
    {
      data, valid := [], false;
    }

    method NextEncoding() returns (tag: byte, header: nat, length: nat)
      modifies this
      ensures valid == (old(valid) && Next(old(data)).Some?)
      ensures if valid then data == old(data) && Next(data) == Some((tag, header, length)) else data == []
    {
      hide Number;
      tag, header, length := 0, 0, 0;
      if !valid || |data| < 2 {
        Invalidate();
        return;
      }
      tag := data[0];
      if tag % 32 == HIGH_TAG_NUMBER {
        Invalidate();
        return;
      }
      header, length := 2, data[1];
      if data[1] >= LONG_FORM {
        var bytes := data[1] - LONG_FORM;
        if bytes == 0 || bytes > 4 || |data| < header + bytes || data[header] == 0 {
          Invalidate();
          return;
        }
        length := ReadNumber(data[header..header + bytes]);
        if length < LONG_FORM {
          Invalidate();
          return;
        }
        header := header + bytes;
      }
      if header + length > |data| {
        Invalidate();
      }
    }

    /** The content of the encoding at the front, if it has the tag. */
    method Read(tag: byte) returns (content: seq<byte>)
      modifies this
      ensures valid == (old(valid) && Content(old(data), tag).Some?)
      ensures if valid then Content(old(data), tag) == Some((content, data)) else data == [] && content == []
    {
      hide Next;
      NextFits(data);
      var actual, header, length := NextEncoding();
      if !valid {
        return [];
      }
      if actual != tag {
        Invalidate();
        return [];
      }
      content := data[header..header + length];
      data := data[header + length..];
    }

    method ReadUnsigned() returns (value: nat)
      modifies this
      ensures valid == (old(valid) && ReadWord(old(data)).Some?)
      ensures if valid then ReadWord(old(data)) == Some((value, data)) else data == []
    {
      hide Content, Number;
      value := 0;
      var content := Read(INTEGER_TAG);
      if !valid || !IsInteger(content) || content[0] >= 128 {
        Invalidate();
        return;
      }
      if content[0] == 0 && |content| > 1 {
        content := content[1..];
      }
      if |content| > 8 {
        Invalidate();
        return;
      }
      value := ReadNumber(content);
    }

    /** A time under either tag. */
    method ReadTime() returns (seconds: int)
      modifies this
      ensures valid == (old(valid) && ReadSeconds(old(data)).Some?)
      ensures if valid then ReadSeconds(old(data)) == Some((seconds, data)) else data == []
    {
      hide Content, ToSeconds, IsDate;
      seconds := 0;
      var utc := valid && data != [] && data[0] == UTC_TIME_TAG;
      var text := Read(if utc then UTC_TIME_TAG else GENERALIZED_TIME_TAG);
      var y := YearDigits(utc);
      if !valid || |text| != y + 11 {
        Invalidate();
        return;
      }
      var numeric := AllDigits(text[..|text| - 1]);
      if !numeric || text[|text| - 1] != ZULU {
        Invalidate();
        return;
      }
      var year := ReadField(text, 0, y);
      var month := ReadField(text, y, 2);
      var day := ReadField(text, y + 2, 2);
      var hour := ReadField(text, y + 4, 2);
      var minute := ReadField(text, y + 6, 2);
      var second := ReadField(text, y + 8, 2);
      var d, c := Date(FullYear(utc, year), month, day), Clock(hour, minute, second);
      if !IsDate(d) || !(hour < 24 && minute < 60 && second < 60) {
        Invalidate();
        return;
      }
      seconds := ToSeconds(d, c);
    }
  }

  ghost function ReadSeconds(data: seq<byte>): Option<(int, seq<byte>)> {
    var utc := data != [] && data[0] == UTC_TIME_TAG;
    var content := Content(data, if utc then UTC_TIME_TAG else GENERALIZED_TIME_TAG);
    if content.None? || TimeOf(utc, content.value.0).None? then None
    else Some((TimeOf(utc, content.value.0).value, content.value.1))
  }

  method ReadNumber(bytes: seq<byte>) returns (value: nat)
    ensures value == Number(bytes, 256)
  {
    value := 0;
    var i: nat := 0;
    while i < |bytes|
      invariant i <= |bytes| && value == Number(bytes[..i], 256)
    {
      assert bytes[..i + 1][..i] == bytes[..i];
      value := value * 256 + bytes[i];
      i := i + 1;
    }
    assert bytes[..i] == bytes;
  }

  method AllDigits(text: seq<byte>) returns (all: bool)
    ensures all <==> AreDecimal(text)
  {
    for i := 0 to |text|
      invariant AreDecimal(text[..i])
    {
      if !IsDigit(text[i]) {
        return false;
      }
      assert text[..i + 1] == text[..i] + [text[i]];
    }
    assert text[..|text|] == text;
    return true;
  }

  method ReadField(text: seq<byte>, at: nat, count: nat) returns (value: nat)
    requires at + count < |text| && AreDecimal(text[..|text| - 1])
    ensures value == Field(text, at, count)
  {
    DecimalSlice(text, at, count);
    var digits := text[at..at + count];
    value := 0;
    var i: nat := 0;
    while i < count
      invariant i <= count && AreDecimal(digits[..i]) && value == DecimalNumber(digits[..i])
    {
      assert digits[..i + 1][..i] == digits[..i];
      value := value * 10 + digits[i] - DIGIT_ZERO;
      i := i + 1;
    }
    assert digits[..i] == digits;
  }
}
