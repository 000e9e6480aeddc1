/** What numerals denote, told from decimal texts alone. */
module SortDecimals {
  import opened SortNumber

  function DigitOf(d: nat): bv8
    requires d < 10
  {
    (48 + d) as bv8
  }

  /** A number in decimals. */
  function Decimal(n: nat): (s: Text) {
    if n < 10 then [DigitOf(n)] else Decimal(n / 10) + [DigitOf(n % 10)]
  }

  predicate AllDigits(s: Text) {
    forall k :: 0 <= k < |s| ==> 48 <= s[k] as int <= 57
  }

  lemma DigitIs(c: bv8)
    ensures Digit(c) <==> 48 <= c as int <= 57
    ensures Digit(c) ==> DigitValue(c) == c as int - 48
  {
    if Digit(c) {
      assert (c - ZERO) as int == c as int - 48;
    }
  }

  lemma DigitOfIs(d: nat)
    requires d < 10
    ensures Digit(DigitOf(d)) && DigitValue(DigitOf(d)) == d && DigitOf(d) as int == 48 + d
  {
    DigitIs(DigitOf(d));
  }

  // ---------------------------------------------------------------- one place on

  lemma {:induction false} DecimalsTail(s: Text, i: nat)
    requires s != []
    ensures Decimals(s, i + 1) == Decimals(s[1..], i)
    decreases |s| - i
  {
    if i + 1 < |s| && Digit(s[i + 1]) {
      DecimalsTail(s, i + 1);
    }
  }

  lemma {:induction false} DigitsTail(s: Text, i: nat)
    requires s != []
    ensures Digits(s, i + 1) == Digits(s[1..], i)
    decreases |s| - i
  {
    if i + 1 < |s| && Digit(s[i + 1]) {
      DigitsTail(s, i + 1);
    }
  }

  lemma {:induction false} MagnitudeTail(s: Text, i: nat)
    requires s != []
    ensures Magnitude(s, i + 1) == Magnitude(s[1..], i)
    decreases |s| - i
  {
    if i + 1 < |s| && Digit(s[i + 1]) {
      DigitsTail(s, i + 1);
      MagnitudeTail(s, i + 1);
    } else {
      DecimalsTail(s, i + 1);
    }
  }

  // ---------------------------------------------------------------- digits

  lemma {:induction false} DigitsOf(a: Text, t: Text)
    requires AllDigits(a) && (t != [] ==> !Digit(t[0]))
    ensures Digits(a + t, 0) == |a|
    decreases |a|
  {
    if a == [] {
      assert a + t == t;
    } else {
      DigitIs(a[0]);
      DigitsTail(a + t, 0);
      assert (a + t)[1..] == a[1..] + t;
      DigitsOf(a[1..], t);
    }
  }

  /** Digits and what follows them. */
  lemma {:induction false} DigitsThen(a: Text, t: Text)
    requires AllDigits(a) && (t != [] ==> !Digit(t[0]))
    ensures Magnitude(a + t, 0) == Magnitude(a, 0) + Fraction(t, 0)
    decreases |a|
  {
    if a == [] {
      assert a + t == t;
    } else {
      DigitIs(a[0]);
      First(a, t);
      First(a, []);
      assert a + [] == a && a[1..] + [] == a[1..];
      DigitsThen(a[1..], t);
    }
  }

  lemma First(a: Text, t: Text)
    requires a != [] && AllDigits(a) && (t != [] ==> !Digit(t[0]))
    ensures Digit(a[0]) && Magnitude(a + t, 0) == (DigitValue(a[0]) * Pow10(|a| - 1)) as real + Magnitude(a[1..] + t, 0)
  {
    hide Magnitude, Pow10, Digits, Digit, DigitValue;
    DigitIs(a[0]);
    FirstStands(a + t);
    assert (a + t)[1..] == a[1..] + t && (a + t)[0] == a[0];
    DigitsOf(a[1..], t);
  }

  lemma FirstStands(s: Text)
    requires s != [] && Digit(s[0])
    ensures Magnitude(s, 0) == (DigitValue(s[0]) * Pow10(Digits(s[1..], 0))) as real + Magnitude(s[1..], 0)
  {
    hide Pow10, Digits, Digit, DigitValue;
    MagnitudeTail(s, 0);
    DigitsTail(s, 0);
  }

  lemma FirstOf(a: Text)
    requires a != [] && AllDigits(a)
    ensures Digit(a[0]) && Magnitude(a, 0) == (DigitValue(a[0]) * Pow10(|a| - 1)) as real + Magnitude(a[1..], 0)
  {
    hide Magnitude, Pow10;
    First(a, []);
    assert a + [] == a && a[1..] + [] == a[1..];
  }

  lemma OneDigit(d: nat)
    requires d < 10
    ensures Magnitude([DigitOf(d)], 0) == d as real
  {
    hide Magnitude, DigitOf;
    DigitOfIs(d);
    FirstOf([DigitOf(d)]);
    assert [DigitOf(d)][1..] == [] && Pow10(0) == 1;
    NoDigits();
  }

  /** A digit more makes the number ten times as large and adds its value. */
  lemma {:induction false} DigitMore(a: Text, d: nat)
    requires AllDigits(a) && d < 10
    ensures Magnitude(a + [DigitOf(d)], 0) == 10.0 * Magnitude(a, 0) + d as real
    decreases |a|
  {
    hide Magnitude, DigitOf, Digit, DigitValue, Pow10;
    if a == [] {
      OneDigit(d);
      NoDigits();
      assert a + [DigitOf(d)] == [DigitOf(d)];
    } else {
      var b := a + [DigitOf(d)];
      DigitOfIs(d);
      FirstOf(b);
      FirstOf(a);
      DigitMore(a[1..], d);
      assert b[1..] == a[1..] + [DigitOf(d)];
      MorePlaces(DigitValue(a[0]), |a| - 1);
    }
  }

  lemma MorePlaces(d: nat, n: nat)
    ensures (d * Pow10(n + 1)) as real == 10.0 * (d * Pow10(n)) as real
  {
    TenTimes(d, Pow10(n));
  }

  lemma TenTimes(d: nat, p: nat)
    ensures (d * (10 * p)) as real == 10.0 * (d * p) as real
  {
    assert d * (10 * p) == 10 * (d * p);
  }

  lemma {:induction false} DecimalDigits(n: nat)
    ensures AllDigits(Decimal(n)) && Decimal(n) != []
    decreases n
  {
    DigitOfIs(n % 10);
    if n >= 10 {
      DecimalDigits(n / 10);
    }
  }

  // ---------------------------------------------------------------- the laws

  /** The decimal text of a number has its value, and with a minus sign the opposite. */
  lemma {:induction false} DecimalValue(n: nat)
    ensures Value(Decimal(n)) == n as real && Value([MINUS] + Decimal(n)) == -(n as real)
    decreases n
  {
    hide Value, Magnitude, Decimal;
    DecimalMagnitude(n);
    DecimalDigits(n);
    Signed(Decimal(n));
  }

  lemma {:induction false} DecimalMagnitude(n: nat)
    ensures Magnitude(Decimal(n), 0) == n as real
    decreases n
  {
    hide Magnitude, DigitOf;
    if n < 10 {
      DigitMore([], n);
      assert [] + [DigitOf(n)] == [DigitOf(n)];
      NoDigits();
    } else {
      DecimalDigits(n / 10);
      DecimalMagnitude(n / 10);
      DigitMore(Decimal(n / 10), n % 10);
      assert n == 10 * (n / 10) + n % 10;
    }
  }

  lemma NoDigits()
    ensures Magnitude([], 0) == 0.0
  {
  }

  lemma Signed(t: Text)
    ensures Value([MINUS] + t) == -Magnitude(t, 0)
    ensures t == [] || t[0] != 45 ==> Value(t) == Magnitude(t, 0)
  {
    MagnitudeTail([MINUS] + t, 0);
    assert ([MINUS] + t)[1..] == t;
  }

  /** A point behind digits changes nothing; to move it over a digit to the right makes
      the value ten times as large, whatever follows. */
  lemma PointMoves(a: Text, d: nat, t: Text)
    requires AllDigits(a) && d < 10
    ensures Magnitude(a + [POINT], 0) == Magnitude(a, 0)
    ensures Magnitude(a + [DigitOf(d)] + ([POINT] + t), 0) == 10.0 * Magnitude(a + ([POINT, DigitOf(d)] + t), 0)
  {
    DigitOfIs(d);
    NotDigits();
    DigitsThen(a, [POINT]);
    DigitMore(a, d);
    DigitsThen(a + [DigitOf(d)], [POINT] + t);
    DigitsThen(a, [POINT, DigitOf(d)] + t);
    PointThen(t);
    PointThen([DigitOf(d)] + t);
    assert [POINT] + ([DigitOf(d)] + t) == [POINT, DigitOf(d)] + t;
    DecimalsTail([DigitOf(d)] + t, 0);
    assert ([DigitOf(d)] + t)[1..] == t;
  }

  lemma PointThen(t: Text)
    ensures Fraction([POINT] + t, 0) == Decimals(t, 0)
  {
    DecimalsTail([POINT] + t, 0);
    assert ([POINT] + t)[1..] == t;
  }

  /** What stands behind the digits and is neither a digit nor a point does not count, and
      after the decimals neither does a point. */
  lemma NothingMore(a: Text, t: Text)
    requires AllDigits(a) && t != [] && !(48 <= t[0] as int <= 57)
    ensures t[0] as int != 46 ==> Magnitude(a + t, 0) == Magnitude(a, 0)
    ensures Decimals(a + t, 0) == Decimals(a, 0)
  {
    DigitIs(t[0]);
    DigitsThen(a, t);
    DecimalsEnd(a, t);
  }

  lemma {:induction false} DecimalsEnd(a: Text, t: Text)
    requires AllDigits(a) && t != [] && !Digit(t[0])
    ensures Decimals(a + t, 0) == Decimals(a, 0)
    decreases |a|
  {
    if a == [] {
      assert a + t == t;
    } else {
      DecimalsTail(a + t, 0);
      DecimalsTail(a, 0);
      assert (a + t)[1..] == a[1..] + t;
      DecimalsEnd(a[1..], t);
    }
  }
}
