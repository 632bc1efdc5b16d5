/** Base58: text of a number in base fifty-eight, with a leading character for each leading zero. */
module Base58 {
  import opened Common
  import opened Words
  import opened Radix

  // ---- The alphabet: without zero, upper-case I and O, and lower-case l ----

  function CharOf(digit: nat): char
    requires digit < 58
  {
    if digit < 9 then '1' + digit as char
    else if digit < 17 then 'A' + (digit - 9) as char
    else if digit < 22 then 'J' + (digit - 17) as char
    else if digit < 33 then 'P' + (digit - 22) as char
    else if digit < 44 then 'a' + (digit - 33) as char
    else 'm' + (digit - 44) as char
  }

  /** The index of a character in the alphabet. */
  function Find(c: char): (r: Option<nat>)
    ensures r.Some? ==> r.value < 58 && CharOf(r.value) == c
  {
    if '1' <= c <= '9' then Some((c - '1') as nat)
    else if 'A' <= c <= 'H' then Some((c - 'A') as nat + 9)
    else if 'J' <= c <= 'N' then Some((c - 'J') as nat + 17)
    else if 'P' <= c <= 'Z' then Some((c - 'P') as nat + 22)
    else if 'a' <= c <= 'k' then Some((c - 'a') as nat + 33)
    else if 'm' <= c <= 'z' then Some((c - 'm') as nat + 44)
    else None
  }

  lemma {:induction false} FindCharOf(digit: nat)
    requires digit < 58
    ensures Find(CharOf(digit)) == Some(digit)
  {
  }

  predicate IsBase58(text: string) {
    forall i :: 0 <= i < |text| ==> Find(text[i]).Some?
  }

  // ---- Capacity ----

  lemma {:induction false} EncodeCapacity(bytes: nat)
    ensures Power(256, bytes) <= Power(58, bytes * 138 / 100 + 1)
  {
    assert Power(256, 8) <= Power(58, 11);
    Capacity(256, 58, 8, 11, bytes, bytes * 138 / 100 + 1);
  }

  lemma {:induction false} Square(n: nat, value: nat)
    requires Power(58, n) == value
    ensures Power(58, 2 * n + 1) == 58 * (value * value)
  {
    PowerSum(58, n, n);
    assert Power(58, 2 * n + 1) == 58 * Power(58, 2 * n);
  }

  lemma {:induction false} SquareBytes(n: nat, value: nat)
    requires Power(256, n) == value
    ensures Power(256, 2 * n) == value * value
  {
    PowerSum(256, n, n);
  }

  lemma {:induction false} DecodePowers()
    ensures Power(58, 71) <= Power(256, 52)
  {
    assert Power(58, 8) == 0x7479027ea100;
    assert Power(256, 13) == 0x100000000000000000000000000;
    hide Power;
    Square(8, 0x7479027ea100);
    Square(17, 0xc018588c2b6cc46cf08ba0000);
    Square(35, 0x20a8469deca6b5a6d367cbc0907d07e6a5584778de2800000000);
    SquareBytes(13, 0x100000000000000000000000000);
    SquareBytes(26, 0x10000000000000000000000000000000000000000000000000000);
  }

  lemma {:induction false} DecodeCapacity(chars: nat)
    ensures Power(58, chars) <= Power(256, chars * 733 / 1000 + 1)
  {
    DecodePowers();
    hide Power;
    Capacity(58, 256, 71, 52, chars, chars * 733 / 1000 + 1);
  }

  // ---- Digits in place ----

  /** Digits of which those from an index on have been multiplied, with a carry into those before. */
  ghost predicate Multiplying(d: seq<int>, s: seq<int>, i: nat, carry: nat, scale: nat, base: nat, total: int)
    requires i <= |d| == |s|
  {
    && carry < scale && d[..i] == s[..i] && AreDigits(d[i..], base)
    && Continue(scale * Number(s[..i], base) + carry, d[i..], base) == total
  }

  lemma {:induction false} MultiplyingNext(d: seq<int>, s: seq<int>, i: nat, carry: nat, scale: nat, base: nat,
                                           total: int)
    requires i < |d| == |s| && 2 <= base && AreDigits(s, base)
    requires Multiplying(d, s, i + 1, carry, scale, base, total)
    ensures d[i] == s[i] && 0 <= s[i] < base && carry + scale * s[i] >= 0
    ensures var sum := carry + scale * s[i];
      0 <= sum % base < base && 0 <= sum / base < scale &&
      Multiplying(d[i := sum % base], s, i, sum / base, scale, base, total)
  {
    hide Continue, Number;
    assert d[i] == d[..i + 1][i] && s[i] == s[..i + 1][i];
    assert 0 <= s[i] < base;
    var sum := carry + scale * s[i];
    StepCarry(carry, scale, s[i], base);
    StepNumber(s, i, carry, scale, base, d[i + 1..]);
    var next := d[i := sum % base];
    assert next[i..] == [sum % base] + d[i + 1..];
    assert next[..i] == d[..i + 1][..i] == s[..i + 1][..i] == s[..i];
  }

  /** Multiplies the number that an array holds and adds a value to it, from the last digit. The
      array must be able to hold the result, and then nothing is carried out of it. */
  method MultiplyAdd(digits: array<byte>, scale: nat, base: nat, value: nat)
    requires 2 <= base <= 256 && value < scale && AreDigits(digits[..], base)
    requires scale * Number(digits[..], base) + value < Power(base, digits.Length)
    modifies digits
    ensures AreDigits(digits[..], base)
    ensures Number(digits[..], base) == scale * old(Number(digits[..], base)) + value
  {
    ghost var s: seq<int> := digits[..];
    ghost var total := scale * Number(s, base) + value;
    var carry: nat, i: nat := value, digits.Length;
    assert s[..i] == s;
    while i > 0
      invariant i <= digits.Length
      invariant Multiplying(digits[..], s, i, carry, scale, base, total)
    {
      hide Power, Continue, Multiplying, Number, AreDigits;
      MultiplyingNext(digits[..], s, i - 1, carry, scale, base, total);
      i := i - 1;
      var sum: nat := carry + scale * digits[i];
      digits[i] := sum % base;
      carry := sum / base;
    }
    assert digits[..][0..] == digits[..];
    CarriedOut(digits[..], carry, base, total);
    assert carry == 0;
  }

  lemma {:induction false} StepCarry(carry: nat, scale: nat, digit: nat, base: nat)
    requires carry < scale && digit < base
    ensures carry + scale * digit >= 0
    ensures 0 <= (carry + scale * digit) % base < base && 0 <= (carry + scale * digit) / base < scale
  {
    MulMonotone(scale, digit + 1, base);
    var sum := carry + scale * digit;
    assert scale * (digit + 1) == scale * digit + scale;
    assert scale * base == base * scale;
    var q := sum / base;
    assert sum == base * q + sum % base;
    if q >= scale {
      MulMonotone(base, scale, q);
    }
  }

  /** A digit carried into the digits before it. */
  lemma {:induction false} StepNumber(s: seq<int>, i: nat, carry: nat, scale: nat, base: nat, rest: seq<int>)
    requires i < |s| && base > 0
    ensures var sum := carry + scale * s[i];
      Continue(scale * Number(s[..i], base) + sum / base, [sum % base] + rest, base) ==
      Continue(scale * Number(s[..i + 1], base) + carry, rest, base)
  {
    var sum := carry + scale * s[i];
    var n := Number(s[..i], base);
    assert s[..i + 1][..i] == s[..i];
    assert Number(s[..i + 1], base) == base * n + s[i];
    assert ([sum % base] + rest)[1..] == rest;
    Regroup(scale, base, n, s[i], carry, sum / base, sum % base);
  }

  lemma {:induction false} Regroup(scale: int, base: int, n: int, digit: int, carry: int, q: int, r: int)
    requires carry + scale * digit == base * q + r
    ensures base * (scale * n + q) + r == scale * (base * n + digit) + carry
  {
    assert base * (scale * n) == scale * (base * n);
    assert base * (scale * n + q) == base * (scale * n) + base * q;
    assert scale * (base * n + digit) == scale * (base * n) + scale * digit;
  }

  lemma {:induction false} CarriedOut(s: seq<int>, carry: nat, base: nat, total: int)
    requires AreDigits(s, base) && base > 0 && total < Power(base, |s|)
    requires Continue(carry, s, base) == total
    ensures carry == 0 && Number(s, base) == total
  {
    ContinueIs(carry, s, base);
    NumberBound(s, base);
    hide Power;
    if carry > 0 {
      MulMonotone(Power(base, |s|), 1, carry);
    } else {
      assert Power(base, |s|) * 0 == 0;
    }
  }

  // ---- What the text and the bytes of each other are ----

  /** The count of leading elements equal to a value. */
  function Leading<T(==)>(s: seq<T>, x: T): (n: nat)
    ensures n <= |s|
  {
    if s == [] || s[0] != x then 0 else 1 + Leading(s[1..], x)
  }

  lemma {:induction false} LeadingIs<T>(s: seq<T>, x: T)
    ensures forall i :: 0 <= i < Leading(s, x) ==> s[i] == x
    ensures Leading(s, x) < |s| ==> s[Leading(s, x)] != x
    decreases |s|
  {
    if s != [] && s[0] == x {
      LeadingIs(s[1..], x);
    }
  }

  lemma {:induction false} LeadingUnique<T>(s: seq<T>, x: T, n: nat)
    requires n <= |s| && (forall i :: 0 <= i < n ==> s[i] == x) && (n < |s| ==> s[n] != x)
    ensures Leading(s, x) == n
    decreases n
  {
    if n > 0 {
      LeadingUnique(s[1..], x, n - 1);
    }
  }

  ghost function Chars(digits: seq<int>): string
    requires AreDigits(digits, 58)
  {
    seq(|digits|, i requires 0 <= i < |digits| => CharOf(digits[i]))
  }

  ghost function Found(text: string): (r: seq<int>)
    requires IsBase58(text)
    ensures |r| == |text|
  {
    seq(|text|, i requires 0 <= i < |text| => Find(text[i]).value)
  }

  ghost function Encode(data: seq<byte>): string {
    var zeros := Leading(data, 0);
    var n := Number(data[zeros..], 256);
    NumberBound(data[zeros..], 256);
    DigitsValid(n, 58);
    seq(zeros, _ => '1') + Chars(Digits(n, 58))
  }

  ghost function Decode(text: string): seq<byte>
    requires IsBase58(text)
  {
    var zeros := Leading(text, '1');
    var digits := Found(text[zeros..]);
    NumberBound(digits, 58);
    DigitsValid(Number(digits, 58), 256);
    seq(zeros, _ => 0) + Digits(Number(digits, 58), 256)
  }

  // ---- Round trips ----

  lemma {:induction false} FoundChars(digits: seq<int>)
    requires AreDigits(digits, 58)
    ensures IsBase58(Chars(digits)) && Found(Chars(digits)) == digits
  {
    hide Find, CharOf;
    forall i | 0 <= i < |digits|
      ensures Find(CharOf(digits[i])) == Some(digits[i])
    {
      FindCharOf(digits[i]);
    }
  }

  lemma {:induction false} CharsFound(text: string)
    requires IsBase58(text)
    ensures AreDigits(Found(text), 58) && Chars(Found(text)) == text
  {
    hide CharOf;
  }

  /** Every byte string is recovered from its text. */
  lemma {:induction false} DecodeEncode(data: seq<byte>)
    ensures IsBase58(Encode(data)) && Decode(Encode(data)) == data
  {
    hide Number, Digits, Power, Leading;
    var zeros := Leading(data, 0);
    LeadingIs(data, 0);
    var rest := data[zeros..];
    var n := Number(rest, 256);
    NumberBound(rest, 256);
    DigitsValid(n, 58);
    var digits := Digits(n, 58);
    var text := Encode(data);
    FoundChars(digits);
    assert Find('1') == Some(0);
    assert text[zeros..] == Chars(digits);
    if digits != [] {
      FirstChar(digits);
    }
    LeadingUnique(text, '1', zeros);
    NumberDigits(n, 58);
    DigitsNumber(rest, 256);
    assert data == seq(zeros, _ => 0) + rest;
    assert IsBase58(text) by {
      assert forall i :: 0 <= i < |text| ==> text[i] == '1' || text[i] in Chars(digits);
    }
  }

  lemma {:induction false} FirstChar(digits: seq<int>)
    requires AreDigits(digits, 58) && digits != []
    ensures Chars(digits)[0] == '1' <==> digits[0] == 0
  {
  }

  /** Every base58 text is recovered from its bytes. */
  lemma {:induction false} EncodeDecode(text: string)
    requires IsBase58(text)
    ensures Encode(Decode(text)) == text
  {
    hide Number, Digits, Power, Leading, Find;
    var zeros := Leading(text, '1');
    LeadingIs(text, '1');
    var rest := text[zeros..];
    var digits := Found(rest);
    CharsFound(rest);
    NumberBound(digits, 58);
    var n := Number(digits, 58);
    var data := Decode(text);
    DigitsValid(n, 256);
    LeadingUnique(data, 0, zeros);
    assert data[zeros..] == Digits(n, 256);
    NumberDigits(n, 256);
    if digits != [] {
      FirstChar(digits);
    }
    DigitsNumber(digits, 58);
    assert text == seq(zeros, _ => '1') + rest;
  }

  // ---- The encoder and the decoder ----

  method CountLeading<T(==)>(s: seq<T>, x: T) returns (count: nat)
    ensures count == Leading(s, x)
  {
    count := 0;
    while count < |s| && s[count] == x
      invariant count <= |s| && forall i :: 0 <= i < count ==> s[i] == x
    {
      count := count + 1;
    }
    LeadingUnique(s, x, count);
  }

  /** The number of the first bytes of a string. */
  lemma {:induction false} NumberNext(s: seq<int>, k: nat, base: nat)
    requires k < |s|
    ensures Number(s[..k + 1], base) == base * Number(s[..k], base) + s[k]
  {
    assert s[..k + 1][..k] == s[..k];
  }

  /** The number of any first digits fits where the capacity of all of them does. */
  lemma {:induction false} PrefixFits(s: seq<int>, k: nat, base: nat, other: nat, size: nat)
    requires k <= |s| && AreDigits(s, base) && base > 0 && Power(base, |s|) <= Power(other, size)
    ensures 0 <= Number(s[..k], base) < Power(other, size)
  {
    hide Power;
    NumberBound(s[..k], base);
    PowerGrows(base, k, |s|);
  }

  lemma {:induction false} NumberZeros(s: seq<int>, base: nat)
    requires forall i :: 0 <= i < |s| ==> s[i] == 0
    ensures Number(s, base) == 0
  {
    LeadingZeros(s, |s|, base);
  }

  /** Digits less their leading zeros are the minimal digits. */
  lemma {:induction false} Trimmed(s: seq<int>, zeros: nat, base: nat)
    requires base >= 2 && AreDigits(s, base) && zeros <= |s|
    requires (forall i :: 0 <= i < zeros ==> s[i] == 0) && (zeros < |s| ==> s[zeros] != 0)
    ensures Number(s, base) >= 0 && s[zeros..] == Digits(Number(s, base), base)
  {
    LeadingZeros(s, zeros, base);
    DigitsNumber(s[zeros..], base);
  }

  /** The digits, in a base, of the number of a string of digits in another. */
  method Convert(s: seq<nat>, from: nat, to: nat, size: nat) returns (digits: array<byte>)
    requires 2 <= from <= 256 && 2 <= to <= 256 && AreDigits(s, from) && Power(from, |s|) <= Power(to, size)
    ensures fresh(digits) && AreDigits(digits[..], to) && Number(digits[..], to) == Number(s, from)
  {
    hide Power, Number;
    digits := new byte[size](_ => 0);
    NumberZeros(digits[..], to);
    NumberZeros(s[..0], from);
    var index: nat := 0;
    while index < |s|
      invariant index <= |s| && AreDigits(digits[..], to)
      invariant Number(digits[..], to) == Number(s[..index], from)
    {
      NumberNext(s, index, from);
      PrefixFits(s, index + 1, from, to, size);
      MultiplyAdd(digits, from, to, s[index]);
      index := index + 1;
    }
    assert s[..|s|] == s;
  }

  method EncodeBase58(data: seq<byte>) returns (encoded: string)
    ensures encoded == Encode(data)
  {
    hide Power, Number, Digits, Leading, CharOf;
    var zeros := CountLeading(data, 0);
    var size := (|data| - zeros) * 138 / 100 + 1;
    EncodeCapacity(|data| - zeros);
    var indexes := Convert(data[zeros..], 256, 58, size);
    var first := CountLeading(indexes[..], 0);
    LeadingIs(indexes[..], 0);
    Trimmed(indexes[..], first, 58);
    encoded := seq(zeros, _ => '1');
    ghost var digits: seq<int> := indexes[first..];
    var it := first;
    while it < indexes.Length
      invariant first <= it <= indexes.Length
      invariant encoded == seq(zeros, _ => '1') + Chars(digits[..it - first])
    {
      encoded := encoded + [CharOf(indexes[it])];
      it := it + 1;
    }
    assert digits[..|digits|] == digits;
  }

  /** Decodes exactly the texts of the alphabet. */
  method DecodeBase58(text: string) returns (ok: bool, out: seq<byte>)
    ensures ok <==> IsBase58(text)
    ensures out == if ok then Decode(text) else []
  {
    hide Power, Number, Digits, Leading, Find;
    var zeros := CountLeading(text, '1');
    LeadingIs(text, '1');
    var size := |text| * 733 / 1000 + 1;
    var data := new byte[size](_ => 0);
    NumberZeros(data[..], 256);
    ghost var rest := text[zeros..];
    ghost var values: seq<int> := [];
    NumberZeros(values, 58);
    DecodeCapacity(|text|);
    assert IsBase58(text[..zeros]) by {
      FindCharOf(0);
      assert CharOf(0) == '1';
    }
    var it: nat := zeros;
    while it < |text|
      invariant zeros <= it <= |text| && IsBase58(text[..it]) && IsBase58(rest[..it - zeros])
      invariant values == Found(rest[..it - zeros]) && AreDigits(values, 58)
      invariant AreDigits(data[..], 256) && Number(data[..], 256) == Number(values, 58)
    {
      var carry := Find(text[it]);
      if carry.None? {
        return false, [];
      }
      ghost var next: seq<int> := values + [carry.value];
      NumberNext(next, |values|, 58);
      assert next[..|values|] == values && next[..|next|] == next;
      PowerGrows(58, |next|, |text|);
      PrefixFits(next, |next|, 58, 256, size);
      MultiplyAdd(data, 58, 256, carry.value);
      values := next;
      assert rest[..it + 1 - zeros] == rest[..it - zeros] + [text[it]];
      it := it + 1;
    }
    assert text[..it] == text && rest[..it - zeros] == rest;
    var first := CountLeading(data[..], 0);
    LeadingIs(data[..], 0);
    Trimmed(data[..], first, 256);
    ok, out := true, seq(zeros, _ => 0) + data[first..];
  }
}
