/** numcompare and fraccompare of gnu/src/sort.c: decimal strings of any length are
    compared without converting them to machine numbers. */
module SortNumber {
  import opened SortOrder

  /** The text of a line; a NUL follows it. */
  type Text = seq<bv8>

  const NUL: bv8 := 0
  const MINUS: bv8 := 45
  const POINT: bv8 := 46
  const ZERO: bv8 := 48
  const NINE: bv8 := 57

  function At(s: Text, i: nat): bv8 {
    if i < |s| then s[i] else NUL
  }

  predicate Digit(c: bv8) {
    ZERO <= c <= NINE
  }

  function DigitValue(c: bv8): (d: nat)
    requires Digit(c)
    ensures d <= 9
  {
    (c - ZERO) as nat
  }

  lemma DigitOrder(c: bv8, d: bv8)
    requires Digit(c) && Digit(d)
    ensures DigitValue(c) < DigitValue(d) <==> c as int < d as int
    ensures DigitValue(c) == DigitValue(d) <==> c == d
    ensures DigitValue(c) == 0 <==> c == ZERO
    ensures Digit(ZERO) && !Digit(NUL) && !Digit(POINT) && !Digit(MINUS)
  {
    assert (c - ZERO) as int == c as int - 48;
    assert (d - ZERO) as int == d as int - 48;
  }

  lemma NotDigits()
    ensures Digit(ZERO) && !Digit(NUL) && !Digit(POINT) && !Digit(MINUS)
    ensures DigitValue(ZERO) == 0
  {
  }

  // ---------------------------------------------------------------- the value of a numeral

  /** How many digits stand at i. */
  function Digits(s: Text, i: nat): nat
    decreases |s| - i
  {
    if i < |s| && Digit(s[i]) then 1 + Digits(s, i + 1) else 0
  }

  function Pow10(n: nat): (p: nat)
    ensures p >= 1
  {
    if n == 0 then 1 else 10 * Pow10(n - 1)
  }

  /** The fraction that the digits at i denote, read behind a decimal point. */
  function Decimals(s: Text, i: nat): (v: real)
    ensures 0.0 <= v < 1.0
    decreases |s| - i
  {
    if i < |s| && Digit(s[i]) then (DigitValue(s[i]) as real + Decimals(s, i + 1)) / 10.0 else 0.0
  }

  /** The fraction at i: nothing unless a point stands there. */
  function Fraction(s: Text, i: nat): (v: real)
    ensures 0.0 <= v < 1.0
  {
    if At(s, i) == POINT then Decimals(s, i + 1) else 0.0
  }

  /** What the unsigned numeral at i denotes; no digits and no point denote zero. */
  function Magnitude(s: Text, i: nat): (v: real)
    ensures v >= 0.0
    decreases |s| - i
  {
    if i < |s| && Digit(s[i])
    then (DigitValue(s[i]) * Pow10(Digits(s, i + 1))) as real + Magnitude(s, i + 1)
    else Fraction(s, i)
  }

  predicate Negative(s: Text) {
    At(s, 0) == MINUS
  }

  function Value(s: Text): real {
    if Negative(s) then -Magnitude(s, 1) else Magnitude(s, 0)
  }

  /** An optional minus sign and at least one digit. */
  predicate Numeral(s: Text) {
    Digit(At(s, if Negative(s) then 1 else 0))
  }

  function Sign(x: real): int {
    if x < 0.0 then -1 else if x > 0.0 then 1 else 0
  }

  /** By value, but a minus sign counts as less than none, even before zero. */
  function NumberOrder(a: Text, b: Text): int {
    if Negative(a) != Negative(b) then if Negative(a) then -1 else 1
    else Sign(Value(a) - Value(b))
  }

  /** What numcompare tells of two strings: it takes a minus sign for a difference only
      if there are digits in both. */
  function Told(a: Text, b: Text): int {
    if Negative(a) != Negative(b) && !(Numeral(a) && Numeral(b)) then 0 else NumberOrder(a, b)
  }

  /** r has the sign of x - y. */
  predicate Tells(r: int, x: real, y: real) {
    (r < 0 <==> x < y) && (r > 0 <==> x > y)
  }

  // ---------------------------------------------------------------- facts about values

  lemma {:induction false} MagnitudeBelow(s: Text, i: nat)
    ensures Magnitude(s, i) < Pow10(Digits(s, i)) as real
    decreases |s| - i
  {
    if i < |s| && Digit(s[i]) {
      MagnitudeBelow(s, i + 1);
      NineTimes(DigitValue(s[i]), Pow10(Digits(s, i + 1)));
    }
  }

  lemma NineTimes(d: nat, p: nat)
    requires d <= 9
    ensures (d * p) as real + p as real <= (10 * p) as real
  {
    assert d * p <= 9 * p;
  }

  /** A numeral without leading zeros is at least a power of ten. */
  lemma MagnitudeAbove(s: Text, i: nat)
    requires Digit(At(s, i)) && At(s, i) != ZERO
    ensures Digits(s, i) > 0 && Magnitude(s, i) >= Pow10(Digits(s, i) - 1) as real
  {
    NotDigits();
    DigitOrder(s[i], ZERO);
    var d, p := DigitValue(s[i]), Pow10(Digits(s, i + 1));
    assert d * p >= p;
  }

  lemma {:induction false} Pow10Monotone(m: nat, n: nat)
    requires m <= n
    ensures Pow10(m) <= Pow10(n)
    decreases n - m
  {
    if m < n {
      Pow10Monotone(m, n - 1);
    }
  }

  lemma SkipZero(s: Text, i: nat)
    requires At(s, i) == ZERO
    ensures Magnitude(s, i + 1) == Magnitude(s, i) && Decimals(s, i) == Decimals(s, i + 1) / 10.0
    ensures i < |s|
  {
    NotDigits();
  }

  /** The numeral with more digits is the larger. */
  lemma LongerIsLarger(a: Text, i: nat, b: Text, j: nat)
    requires Digits(a, i) > Digits(b, j) && At(a, i) != ZERO
    ensures Magnitude(a, i) > Magnitude(b, j)
  {
    MagnitudeAbove(a, i);
    MagnitudeBelow(b, j);
    Pow10Monotone(Digits(b, j), Digits(a, i) - 1);
  }

  /** With as many digits, the first digit decides. */
  lemma FirstDigitDecides(a: Text, i: nat, b: Text, j: nat)
    requires Digits(a, i) == Digits(b, j) > 0 && a[i] as int < b[j] as int
    ensures Magnitude(a, i) < Magnitude(b, j)
  {
    DigitOrder(a[i], b[j]);
    MagnitudeBelow(a, i + 1);
    var p := Pow10(Digits(a, i + 1));
    NextMultiple(DigitValue(a[i]), DigitValue(b[j]), p);
    LeadingDigit(a, i, p);
    LeadingDigit(b, j, p);
  }

  lemma NextMultiple(c: nat, d: nat, p: nat)
    requires c < d
    ensures (c * p) as real + p as real <= (d * p) as real
  {
    assert d * p >= (c + 1) * p == c * p + p;
  }

  lemma LeadingDigit(s: Text, i: nat, p: nat)
    requires Digits(s, i) > 0 && p == Pow10(Digits(s, i) - 1)
    ensures Magnitude(s, i) == (DigitValue(s[i]) * p) as real + Magnitude(s, i + 1)
  {
  }

  /** The order of two numerals is that of what follows a common digit. */
  lemma CommonDigit(a: Text, i: nat, b: Text, j: nat)
    requires At(a, i) == At(b, j) && Digit(At(a, i))
    ensures i < |a| && j < |b|
    ensures Digits(a, i) == Digits(a, i + 1) + 1 && Digits(b, j) == Digits(b, j + 1) + 1
    ensures Digits(a, i) == Digits(b, j) ==> Magnitude(a, i) - Magnitude(b, j) == Magnitude(a, i + 1) - Magnitude(b, j + 1)
    ensures Decimals(a, i) - Decimals(b, j) == (Decimals(a, i + 1) - Decimals(b, j + 1)) / 10.0
  {
    NotDigits();
  }

  // ---------------------------------------------------------------- fractions

  /** Looks behind the zeros at i for another digit. */
  method AnyDigit(s: Text, i: nat) returns (any: bool)
    ensures any <==> Decimals(s, i) > 0.0
  {
    var k := i;
    while At(s, k) == ZERO
      invariant k >= i
      invariant Decimals(s, i) > 0.0 <==> Decimals(s, k) > 0.0
      decreases |s| - k
    {
      SkipZero(s, k);
      k := k + 1;
    }
    NotDigits();
    any := Digit(At(s, k));
    if any {
      DigitOrder(s[k], ZERO);
    }
  }

  method CompareDecimals(a: Text, i0: nat, b: Text, j0: nat) returns (r: int)
    ensures Tells(r, Decimals(a, i0), Decimals(b, j0))
  {
    var i, j := i0, j0;
    while At(a, i) == At(b, j) && Digit(At(a, i))
      invariant i >= i0 && j >= j0
      invariant Sign(Decimals(a, i0) - Decimals(b, j0)) == Sign(Decimals(a, i) - Decimals(b, j))
      decreases |a| - i
    {
      CommonDigit(a, i, b, j);
      i, j := i + 1, j + 1;
    }
    NotDigits();
    if Digit(At(a, i)) && Digit(At(b, j)) {
      DigitOrder(At(a, i), At(b, j));
      DigitOrder(At(b, j), At(a, i));
      r := At(a, i) as int - At(b, j) as int;
    } else if Digit(At(a, i)) {
      var any := AnyDigit(a, i);
      r := if any then 1 else 0;
    } else if Digit(At(b, j)) {
      var any := AnyDigit(b, j);
      r := if any then -1 else 0;
    } else {
      r := 0;
    }
  }

  /** The sign of the difference of two fractions; a string that does not begin with a
      decimal point counts as zero. */
  method FracCompare(a: Text, i: nat, b: Text, j: nat) returns (r: int)
    ensures Tells(r, Fraction(a, i), Fraction(b, j))
  {
    if At(a, i) == POINT && At(b, j) == POINT {
      r := CompareDecimals(a, i + 1, b, j + 1);
    } else if At(a, i) == POINT {
      var any := AnyDigit(a, i + 1);
      r := if any then 1 else 0;
    } else if At(b, j) == POINT {
      var any := AnyDigit(b, j + 1);
      r := if any then -1 else 0;
    } else {
      r := 0;
    }
  }

  // ---------------------------------------------------------------- numbers

  method SkipZeros(s: Text, i: nat) returns (k: nat)
    ensures k >= i && At(s, k) != ZERO && Magnitude(s, k) == Magnitude(s, i)
  {
    k := i;
    while At(s, k) == ZERO
      invariant k >= i && Magnitude(s, k) == Magnitude(s, i)
      decreases |s| - k
    {
      SkipZero(s, k);
      k := k + 1;
    }
  }

  method CountDigits(s: Text, i: nat) returns (n: nat)
    ensures n == Digits(s, i)
  {
    n := 0;
    if Digit(At(s, i)) {
      NotDigits();
      n := 1;
      while Digit(At(s, i + n))
        invariant Digits(s, i) == n + Digits(s, i + n) && i + n <= |s|
        decreases |s| - n
      {
        n := n + 1;
      }
    }
  }

  /** Unsigned numerals. */
  method MagnitudeCompare(a: Text, i0: nat, b: Text, j0: nat) returns (r: int)
    ensures Tells(r, Magnitude(a, i0), Magnitude(b, j0))
  {
    var i1 := SkipZeros(a, i0);
    var j1 := SkipZeros(b, j0);
    var i, j := i1, j1;
    while At(a, i) == At(b, j) && Digit(At(a, i))
      invariant i >= i1 && j >= j1
      invariant At(a, i1) == ZERO ==> i == i1
      invariant Digits(a, i1) - Digits(b, j1) == Digits(a, i) - Digits(b, j)
      invariant Digits(a, i1) == Digits(b, j1) ==> Magnitude(a, i1) - Magnitude(b, j1) == Magnitude(a, i) - Magnitude(b, j)
      decreases |a| - i
    {
      CommonDigit(a, i, b, j);
      i, j := i + 1, j + 1;
    }
    NotDigits();
    if (At(a, i) == POINT && !Digit(At(b, j))) || (At(b, j) == POINT && !Digit(At(a, i))) {
      r := FracCompare(a, i, b, j);
      return;
    }
    var loga := CountDigits(a, i);
    var logb := CountDigits(b, j);
    if loga != logb {
      r := loga as int - logb as int;
      if loga > logb {
        LongerIsLarger(a, i1, b, j1);
      } else {
        LongerIsLarger(b, j1, a, i1);
      }
    } else if loga == 0 {
      r := 0;
    } else {
      r := At(a, i) as int - At(b, j) as int;
      if r < 0 {
        FirstDigitDecides(a, i, b, j);
      } else if r > 0 {
        FirstDigitDecides(b, j, a, i);
      }
    }
  }

  method NumCompare(a: Text, b: Text) returns (r: int)
    ensures r < 0 <==> Told(a, b) < 0
    ensures r > 0 <==> Told(a, b) > 0
  {
    NotDigits();
    if At(a, 0) == MINUS {
      if At(b, 0) != MINUS {
        r := if Digit(At(a, 1)) && Digit(At(b, 0)) then -1 else 0;
      } else {
        r := MagnitudeCompare(a, 1, b, 1);
        r := -r;
      }
    } else if At(b, 0) == MINUS {
      r := if Digit(At(a, 0)) && Digit(At(b, 1)) then 1 else 0;
    } else {
      r := MagnitudeCompare(a, 0, b, 0);
    }
  }

  lemma NumberOrderIsTotal()
    ensures TotalPreorder(NumberOrder)
  {
  }

  /** numcompare tells the order exactly where it does not meet a sign on one side only,
      next to a string without digits. */
  lemma ToldIsNumberOrder(a: Text, b: Text)
    ensures Told(a, b) == NumberOrder(a, b) <==> Negative(a) == Negative(b) || (Numeral(a) && Numeral(b))
  {
  }

  /** Between numerals that are not both zero the order is that of the values. */
  lemma NumberOrderIsByValue(a: Text, b: Text)
    requires Value(a) != 0.0 || Value(b) != 0.0 || Negative(a) == Negative(b)
    ensures NumberOrder(a, b) == Sign(Value(a) - Value(b))
  {
  }

  /** Without digits numcompare is no order: a string may equal two that differ. */
  lemma ToldIsNotTransitive()
    ensures Told([MINUS, 120], [53]) == 0 && Told([51], [MINUS, 120]) == 0 && Told([51], [53]) < 0
    ensures Told([53], [MINUS, 120]) == 0 && Told([MINUS, 120], [51]) == 0 && Told([53], [51]) > 0
    ensures !TotalPreorder(Told)
  {
    NotDigits();
    var x, three, five: Text := [MINUS, 120], [51], [53];
    assert Digits(three, 1) == 0 && Digits(five, 1) == 0;
    assert Magnitude(three, 0) == 3.0 by { assert Magnitude(three, 1) == 0.0; assert Pow10(0) == 1; }
    assert Magnitude(five, 0) == 5.0 by { assert Magnitude(five, 1) == 0.0; assert Pow10(0) == 1; }
    assert !Digit(At(x, 1));
    assert Told(five, x) == 0 && Told(x, three) == 0 && Told(five, three) > 0;
  }
}
