/** Numbers as big-endian digits in a base, minimal digits, and how many digits suffice to hold a
    number of another base. */
module Radix {
  import opened Words

  // ---- Powers ----

  lemma {:induction false} PowerPositive(base: nat, n: nat)
    requires base > 0
    ensures Power(base, n) > 0
  {
    if n > 0 {
      PowerPositive(base, n - 1);
      MulMonotone(Power(base, n - 1), 1, base);
      assert base * Power(base, n - 1) == Power(base, n - 1) * base;
    }
  }

  lemma {:induction false} PowerPower(base: nat, m: nat, n: nat)
    ensures m * n >= 0 && Power(Power(base, m), n) == Power(base, m * n)
    decreases n
  {
    if n > 0 {
      PowerPower(base, m, n - 1);
      assert m * n == m + m * (n - 1);
      PowerSum(base, m, m * (n - 1));
    }
  }

  lemma {:induction false} PowerMonotone(a: nat, b: nat, n: nat)
    requires a <= b
    ensures Power(a, n) <= Power(b, n)
  {
    if n > 0 {
      PowerMonotone(a, b, n - 1);
      MulBound(a, Power(a, n - 1), b, Power(b, n - 1));
    }
  }

  lemma {:induction false} PowerStrict(a: nat, b: nat, n: nat)
    requires a < b && n > 0
    ensures Power(a, n) < Power(b, n)
  {
    PowerMonotone(a, b, n - 1);
    PowerPositive(b, n - 1);
    MulMonotone(a, Power(a, n - 1), Power(b, n - 1));
    var p := Power(b, n - 1);
    MulMonotone(p, a + 1, b);
    assert p * (a + 1) == a * p + p && b * p == p * b;
  }

  lemma {:induction false} PowerGrows(base: nat, m: nat, n: nat)
    requires base > 0 && m <= n
    ensures Power(base, m) <= Power(base, n)
  {
    PowerSum(base, m, n - m);
    PowerPositive(base, n - m);
    MulMonotone(Power(base, m), 1, Power(base, n - m));
  }

  /** A comparison of fixed powers bounds all powers whose lengths are in the same ratio. */
  lemma {:induction false} Capacity(a: nat, b: nat, i: nat, j: nat, n: nat, m: nat)
    requires b > 0 && i > 0 && Power(a, i) <= Power(b, j) && j * n <= i * m
    ensures Power(a, n) <= Power(b, m)
  {
    hide Power;
    PowerPower(a, i, n);
    PowerPower(a, n, i);
    assert i * n == n * i;
    PowerMonotone(Power(a, i), Power(b, j), n);
    PowerPower(b, j, n);
    PowerGrows(b, j * n, i * m);
    PowerPower(b, m, i);
    assert i * m == m * i;
    if Power(a, n) > Power(b, m) {
      PowerStrict(Power(b, m), Power(a, n), i);
    }
  }

  // ---- Digits ----

  ghost predicate AreDigits(s: seq<int>, base: nat) {
    forall i :: 0 <= i < |s| ==> 0 <= s[i] < base
  }

  ghost function Number(s: seq<int>, base: nat): int {
    if s == [] then 0 else base * Number(s[..|s| - 1], base) + s[|s| - 1]
  }

  /** Digits continued from a number that precedes them. */
  ghost function Continue(number: int, s: seq<int>, base: nat): int
    decreases |s|
  {
    if s == [] then number else Continue(base * number + s[0], s[1..], base)
  }

  lemma {:induction false} ContinueAppend(number: int, s: seq<int>, x: int, base: nat)
    ensures Continue(number, s + [x], base) == base * Continue(number, s, base) + x
    decreases |s|
  {
    if s == [] {
      assert Continue(base * number + x, [], base) == base * number + x;
      assert (s + [x])[1..] == [];
    } else {
      ContinueAppend(base * number + s[0], s[1..], x, base);
      assert (s + [x])[1..] == s[1..] + [x];
    }
  }

  /** Whatever precedes digits weighs a power of the base. */
  lemma {:induction false} ContinueIs(number: int, s: seq<int>, base: nat)
    ensures Continue(number, s, base) == Power(base, |s|) * number + Number(s, base)
    decreases |s|
  {
    if s != [] {
      var front, last := s[..|s| - 1], s[|s| - 1];
      ContinueIs(number, front, base);
      ContinueAppend(number, front, last, base);
      assert s == front + [last];
      var p, n := Power(base, |front|), Number(front, base);
      MulAssociative(base, p, number);
      assert base * (p * number + n) == base * (p * number) + base * n;
    }
  }

  lemma {:induction false} NumberBound(s: seq<int>, base: nat)
    requires AreDigits(s, base)
    ensures 0 <= Number(s, base) < Power(base, |s|)
    decreases |s|
  {
    if s != [] {
      var front := s[..|s| - 1];
      NumberBound(front, base);
      MulMonotone(base, Number(front, base) + 1, Power(base, |front|));
      assert base * (Number(front, base) + 1) == base * Number(front, base) + base;
      assert 0 <= base * Number(front, base) by {
        MulMonotone(base, 0, Number(front, base));
      }
    }
  }

  lemma {:induction false} Unit(base: nat, number: int, digit: int)
    requires 0 <= digit < base
    ensures (base * number + digit) / base == number && (base * number + digit) % base == digit
  {
    var n := base * number + digit;
    var q := n / base;
    assert n == base * q + n % base;
    assert base * (number - q) == base * number - base * q;
    assert base * (q - number) == base * q - base * number;
    if q < number {
      MulMonotone(base, 1, number - q);
    } else if q > number {
      MulMonotone(base, 1, q - number);
    }
  }

  /** The minimal digits of a number, none for zero. */
  ghost function Digits(n: nat, base: nat): seq<int>
    requires base >= 2
  {
    if n == 0 then []
    else
      Smaller(n, base);
      Digits(n / base, base) + [n % base]
  }

  lemma {:induction false} Smaller(n: nat, base: nat)
    requires base >= 2 && n > 0
    ensures 0 <= n / base < n
  {
    assert n == base * (n / base) + n % base;
    if n / base >= 1 {
      MulMonotone(n / base, 2, base);
      assert base * (n / base) == (n / base) * base;
    }
  }

  lemma {:induction false} DigitsValid(n: nat, base: nat)
    requires base >= 2
    ensures AreDigits(Digits(n, base), base) && (Digits(n, base) != [] ==> Digits(n, base)[0] != 0)
    ensures Digits(n, base) == [] <==> n == 0
  {
    if n > 0 {
      Smaller(n, base);
      DigitsValid(n / base, base);
      assert n == base * (n / base) + n % base;
    }
  }

  lemma {:induction false} NumberNext(s: seq<int>, digit: int, base: nat)
    ensures Number(s + [digit], base) == base * Number(s, base) + digit
  {
    assert (s + [digit])[..|s|] == s;
  }

  lemma {:induction false} NumberDigits(n: nat, base: nat)
    requires base >= 2
    ensures Number(Digits(n, base), base) == n
  {
    hide Number;
    if n == 0 {
      NumberNone(base);
    } else {
      Smaller(n, base);
      NumberDigits(n / base, base);
      NumberNext(Digits(n / base, base), n % base, base);
      hide Digits;
      assert n == base * (n / base) + n % base;
    }
  }

  lemma {:induction false} NumberNone(base: nat)
    ensures Number([], base) == 0
  {
  }

  /** Digits without a leading zero are the minimal digits of their number. */
  lemma {:induction false} DigitsNumber(s: seq<int>, base: nat)
    requires base >= 2 && AreDigits(s, base) && (s != [] ==> s[0] != 0)
    ensures Number(s, base) >= 0 && Digits(Number(s, base), base) == s
    ensures s != [] ==> Number(s, base) > 0
    decreases |s|
  {
    if s != [] {
      var front, last := s[..|s| - 1], s[|s| - 1];
      DigitsNumber(front, base);
      var n := Number(front, base);
      Unit(base, n, last);
      MulMonotone(base, 0, n);
      if n > 0 {
        MulMonotone(base, 1, n);
      }
      assert s == front + [last];
    }
  }

  lemma {:induction false} LeadingZeros(s: seq<int>, zeros: nat, base: nat)
    requires zeros <= |s| && forall i :: 0 <= i < zeros ==> s[i] == 0
    ensures Number(s, base) == Number(s[zeros..], base)
    decreases |s|
  {
    if zeros < |s| {
      var front := s[..|s| - 1];
      LeadingZeros(front, zeros, base);
      assert s[zeros..][..|s[zeros..]| - 1] == front[zeros..];
    } else if s != [] {
      LeadingZeros(s[..|s| - 1], zeros - 1, base);
      assert Number(s[..|s| - 1][zeros - 1..], base) == 0 && s[zeros..] == [];
      assert base * 0 == 0;
    }
  }
}
