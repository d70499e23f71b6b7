/** The number test of `atom` (main.go:72): the decimal syntax accepted by
    strconv.ParseFloat, read left to right as Go's scanner reads it: an
    optional sign, digits with at most one decimal point and at least one
    digit, and an optional exponent `e` or `E` with an optional sign and at
    least one digit. The value is an exact real instead of a rounded
    float64. */
module Numbers {
  import opened Expr

  predicate IsDigit(c: char)
  {
    '0' <= c <= '9'
  }

  predicate AllDigits(s: string)
  {
    forall i | 0 <= i < |s| :: IsDigit(s[i])
  }

  function DigitValue(c: char): (d: nat)
    requires IsDigit(c)
    ensures d < 10
  {
    c as int - '0' as int
  }

  function DigitChar(d: nat): (c: char)
    requires d < 10
    ensures IsDigit(c) && DigitValue(c) == d
  {
    ('0' as int + d) as char
  }

  /** The value of a string of decimal digits, most significant first. */
  function DigitsValue(s: string): nat
    requires AllDigits(s)
  {
    if s == [] then 0 else DigitsValue(s[..|s| - 1]) * 10 + DigitValue(s[|s| - 1])
  }

  function Pow10(k: nat): (p: nat)
    ensures p >= 1
  {
    if k == 0 then 1 else 10 * Pow10(k - 1)
  }

  /** `x` times 10 raised to `k`, one factor of ten at a time. */
  function Shift(x: real, k: int): real
    decreases if k >= 0 then k else -k
  {
    if k == 0 then x
    else if k > 0 then Shift(x, k - 1) * 10.0
    else Shift(x, k + 1) / 10.0
  }

  // ---------------------------------------------------------------------
  // The scanner

  /** Where the scanner is: before anything, after the sign, in the whole
      part, after the point, after the exponent marker, after the exponent's
      sign, in the exponent's digits. */
  datatype Part = Start | Signed | Whole | Fraction | Mark | MarkSign | Exponent

  /** What has been read: every mantissa digit accumulated into one integer,
      how many mantissa digits there were and how many of them came after the
      point, and the exponent with its sign. */
  datatype Scan = Scan(part: Part, negative: bool, mantissa: nat, digits: nat,
                       fracDigits: nat, expNegative: bool, exponent: nat)

  const Initial := Scan(Start, false, 0, 0, 0, false, 0)

  predicate InMantissa(st: Scan)
  {
    st.part == Start || st.part == Signed || st.part == Whole || st.part == Fraction
  }

  predicate InExponent(st: Scan)
  {
    st.part == Mark || st.part == MarkSign || st.part == Exponent
  }

  /** One character of the mantissa: a digit, the one point, or the exponent
      marker once some digit has been seen. */
  function MantissaStep(st: Scan, c: char): Option<Scan>
  {
    if IsDigit(c) then
      var frac := st.part == Fraction;
      Some(st.(part := if frac then Fraction else Whole,
               mantissa := st.mantissa * 10 + DigitValue(c),
               digits := st.digits + 1,
               fracDigits := if frac then st.fracDigits + 1 else st.fracDigits))
    else if c == '.' && st.part != Fraction then Some(st.(part := Fraction))
    else if (c == 'e' || c == 'E') && st.digits > 0 then Some(st.(part := Mark))
    else None
  }

  function ExponentStep(st: Scan, c: char): Option<Scan>
  {
    if IsDigit(c) then Some(st.(part := Exponent, exponent := st.exponent * 10 + DigitValue(c)))
    else None
  }

  /** The scanner's move on one character, or None when the character cannot
      come next. */
  function Step(st: Scan, c: char): Option<Scan>
  {
    match st.part
      case Start =>
        if c == '+' || c == '-' then Some(st.(part := Signed, negative := c == '-'))
        else MantissaStep(st, c)
      case Mark =>
        if c == '+' || c == '-' then Some(st.(part := MarkSign, expNegative := c == '-'))
        else ExponentStep(st, c)
      case MarkSign => ExponentStep(st, c)
      case Exponent => ExponentStep(st, c)
      case _ => MantissaStep(st, c)
  }

  /** The signed exponent of a scan. */
  function SignedExponent(st: Scan): int
  {
    if st.expNegative then -(st.exponent as int) else st.exponent as int
  }

  /** The number a finished scan denotes: the mantissa digits shifted by
      the exponent less the number of digits after the point. */
  function Value(st: Scan): real
  {
    var v := Shift(st.mantissa as real, SignedExponent(st) - st.fracDigits);
    if st.negative then -v else v
  }

  /** The end of the text: a number needs a mantissa digit and must not end
      after a sign or an exponent marker. */
  function Finish(st: Scan): Option<real>
  {
    if st.digits > 0 && (st.part == Whole || st.part == Fraction || st.part == Exponent)
    then Some(Value(st))
    else None
  }

  /** The scan of the rest of the text from state `st`. */
  function ScanFrom(s: string, st: Scan): Option<real>
    decreases |s|, 1
  {
    if s == [] then Finish(st) else ScanNext(s, st)
  }

  /** The scan of a non-empty rest: one step, then the rest after it. */
  function ScanNext(s: string, st: Scan): Option<real>
    requires s != []
    decreases |s|, 0
  {
    match Step(st, s[0])
      case None => None
      case Some(next) => ScanFrom(s[1..], next)
  }

  /** strconv.ParseFloat restricted to decimal syntax: the value, or None for
      a syntax error. */
  function ParseNumber(s: string): Option<real>
  {
    ScanFrom(s, Initial)
  }

  /** The decimal digits of a natural number, without leading zeros. */
  function NatText(n: nat): (s: string)
    ensures s != [] && AllDigits(s)
  {
    if n < 10 then [DigitChar(n)] else NatText(n / 10) + [DigitChar(n % 10)]
  }

  // ---------------------------------------------------------------------
  // Reference definitions

  /** The value of `whole.frac`. */
  function Decimal(whole: string, frac: string): (r: real)
    requires AllDigits(whole) && AllDigits(frac)
    ensures r >= 0.0
  {
    DigitsValue(whole) as real + DigitsValue(frac) as real / Pow10(|frac|) as real
  }

  /** `d` multiplied by ten to the power of `n`, or divided by it when
      `down` holds. */
  function Scale(d: real, n: nat, down: bool): real
  {
    if down then d / Pow10(n) as real else d * Pow10(n) as real
  }

  /** The scan after a run of mantissa digits. */
  function AfterDigits(st: Scan, d: string): Scan
    requires AllDigits(d)
  {
    if d == [] then st
    else
      var frac := st.part == Fraction;
      st.(part := if frac then Fraction else Whole,
          mantissa := st.mantissa * Pow10(|d|) + DigitsValue(d),
          digits := st.digits + |d|,
          fracDigits := if frac then st.fracDigits + |d| else st.fracDigits)
  }

  /** The scan after a run of exponent digits. */
  function AfterExponentDigits(st: Scan, d: string): Scan
    requires AllDigits(d)
  {
    if d == [] then st
    else st.(part := Exponent, exponent := st.exponent * Pow10(|d|) + DigitsValue(d))
  }

  /** A character that no number contains. */
  predicate Foreign(c: char)
  {
    !IsDigit(c) && c !in {'+', '-', '.', 'e', 'E'}
  }

  // ---------------------------------------------------------------------
  // Lemmas

  lemma {:induction false} NatTextValue(n: nat)
    ensures DigitsValue(NatText(n)) == n
  {
    var s := NatText(n);
    if n >= 10 {
      NatTextValue(n / 10);
      assert s[..|s| - 1] == NatText(n / 10);
    }
  }

  lemma DigitsSnoc(s: string, c: char)
    requires AllDigits(s) && IsDigit(c)
    ensures AllDigits(s + [c]) && DigitsValue(s + [c]) == DigitsValue(s) * 10 + DigitValue(c)
  {
    assert (s + [c])[..|s|] == s;
  }

  /** Shifting an accumulated integer by one more digit. */
  lemma ShiftDigit(m: nat, k: nat, v: nat, c: nat)
    ensures (m * Pow10(k) + v) * 10 + c == m * Pow10(k + 1) + (v * 10 + c)
  {
    assert Pow10(k + 1) == 10 * Pow10(k);
    calc {
      (m * Pow10(k) + v) * 10 + c;
      m * (10 * Pow10(k)) + (v * 10 + c);
    }
  }

  lemma {:induction false} ShiftUp(x: real, k: nat)
    ensures Shift(x, k) == x * Pow10(k) as real
  {
    if k > 0 {
      ShiftUp(x, k - 1);
      assert Pow10(k) as real == 10.0 * Pow10(k - 1) as real;
    }
  }

  lemma {:induction false} ShiftDown(x: real, k: nat)
    ensures Shift(x, -(k as int)) == x / Pow10(k) as real
  {
    if k > 0 {
      ShiftDown(x, k - 1);
      var p := Pow10(k - 1) as real;
      assert Pow10(k) as real == 10.0 * p;
      DivideTwice(x, p);
    }
  }

  lemma DivideTwice(x: real, p: real)
    requires p > 0.0
    ensures (x / p) / 10.0 == x / (10.0 * p)
  {
    var q := x / p;
    assert q * p == x;
    assert (q / 10.0) * (10.0 * p) == x;
  }

  /** The value of a scan without exponent and sign. */
  lemma PlainValue(st: Scan)
    requires st.exponent == 0 && !st.negative
    ensures Value(st) == st.mantissa as real / Pow10(st.fracDigits) as real
  {
    ShiftDown(st.mantissa as real, st.fracDigits);
  }

  /** The value of a scan of an integer with a non-negative exponent. */
  lemma IntegerValue(st: Scan)
    requires st.fracDigits == 0 && !st.expNegative && !st.negative
    ensures Value(st) == (st.mantissa * Pow10(st.exponent)) as real
  {
    ShiftUp(st.mantissa as real, st.exponent);
    ProductAsReal(st.mantissa, Pow10(st.exponent), 0);
  }

  /** One more mantissa digit after a run of them. */
  lemma MantissaDigitStep(st: Scan, d: string, c: char)
    requires AllDigits(d) && IsDigit(c) && InMantissa(st)
    ensures AllDigits(d + [c])
    ensures Step(AfterDigits(st, d), c) == Some(AfterDigits(st, d + [c]))
  {
    DigitsSnoc(d, c);
    ShiftDigit(st.mantissa, |d|, DigitsValue(d), DigitValue(c));
    if d == [] {
      assert DigitsValue([c]) == DigitValue(c) by {
        assert [c][..0] == [];
      }
    }
  }

  /** One more exponent digit after a run of them. */
  lemma ExponentDigitStep(st: Scan, d: string, c: char)
    requires AllDigits(d) && IsDigit(c) && InExponent(st)
    ensures AllDigits(d + [c])
    ensures Step(AfterExponentDigits(st, d), c) == Some(AfterExponentDigits(st, d + [c]))
  {
    DigitsSnoc(d, c);
    ShiftDigit(st.exponent, |d|, DigitsValue(d), DigitValue(c));
    if d == [] {
      assert DigitsValue([c]) == DigitValue(c) by {
        assert [c][..0] == [];
      }
    }
  }

  /** Reading one character that the scanner accepts. */
  lemma ScanHead(s: string, st: Scan, next: Scan)
    requires s != [] && Step(st, s[0]) == Some(next)
    ensures ScanFrom(s, st) == ScanFrom(s[1..], next)
  {
  }

  lemma ScanCons(c: char, rest: string, st: Scan, next: Scan)
    requires Step(st, c) == Some(next)
    ensures ScanFrom([c] + rest, st) == ScanFrom(rest, next)
  {
    assert ([c] + rest)[0] == c && ([c] + rest)[1..] == rest;
  }

  /** Reading a run of mantissa digits. */
  lemma {:induction false} ScanDigits(d: string, rest: string, st: Scan)
    requires AllDigits(d) && InMantissa(st)
    ensures ScanFrom(d + rest, st) == ScanFrom(rest, AfterDigits(st, d))
    decreases |d|
  {
    if d == [] {
      assert d + rest == rest;
    } else {
      var init, c := d[..|d| - 1], d[|d| - 1];
      assert AllDigits(init) && IsDigit(c);
      assert d + rest == init + ([c] + rest) && init + [c] == d;
      ScanDigits(init, [c] + rest, st);
      MantissaDigitStep(st, init, c);
      ScanCons(c, rest, AfterDigits(st, init), AfterDigits(st, d));
    }
  }

  /** Reading a run of exponent digits. */
  lemma {:induction false} ScanExponentDigits(d: string, rest: string, st: Scan)
    requires AllDigits(d) && InExponent(st)
    ensures ScanFrom(d + rest, st) == ScanFrom(rest, AfterExponentDigits(st, d))
    decreases |d|
  {
    if d == [] {
      assert d + rest == rest;
    } else {
      var init, c := d[..|d| - 1], d[|d| - 1];
      assert AllDigits(init) && IsDigit(c);
      assert d + rest == init + ([c] + rest) && init + [c] == d;
      ScanExponentDigits(init, [c] + rest, st);
      ExponentDigitStep(st, init, c);
      ScanCons(c, rest, AfterExponentDigits(st, init), AfterExponentDigits(st, d));
    }
  }

  /** Decimal digits read back as the number they spell. */
  lemma ParseDigits(s: string)
    requires s != [] && AllDigits(s)
    ensures ParseNumber(s) == Some(DigitsValue(s) as real)
  {
    var st := AfterDigits(Initial, s);
    assert ParseNumber(s) == ScanFrom([], st) by {
      ScanDigits(s, [], Initial);
      assert s + [] == s;
    }
    assert st.mantissa == DigitsValue(s) && st.fracDigits == 0 && st.exponent == 0;
    assert st.digits > 0 && st.part == Whole && !st.negative && !st.expNegative;
    IntegerValue(st);
    assert Pow10(0) == 1;
  }

  /** Formatting a natural number and parsing it back gives the number. */
  lemma ParseNatText(n: nat)
    ensures ParseNumber(NatText(n)) == Some(n as real)
  {
    ParseDigits(NatText(n));
    NatTextValue(n);
  }

  lemma ProductAsReal(a: nat, b: nat, c: nat)
    ensures (a * b + c) as real == a as real * b as real + c as real
  {
  }

  lemma DivideSum(w: real, f: real, p: real)
    requires p > 0.0
    ensures (w * p + f) / p == w + f / p
  {
    var q := w + f / p;
    assert q * p == w * p + f;
  }

  /** An integer `w * p + f` divided by `p`. */
  lemma MantissaSplit(w: nat, f: nat, p: nat)
    requires p >= 1
    ensures (w * p + f) as real / p as real == w as real + f as real / p as real
  {
    ProductAsReal(w, p, f);
    DivideSum(w as real, f as real, p as real);
  }

  /** The mantissa `whole.frac` as one integer scaled down. */
  lemma DecimalAsMantissa(whole: string, frac: string)
    requires AllDigits(whole) && AllDigits(frac)
    ensures (DigitsValue(whole) * Pow10(|frac|) + DigitsValue(frac)) as real / Pow10(|frac|) as real
      == Decimal(whole, frac)
  {
    MantissaSplit(DigitsValue(whole), DigitsValue(frac), Pow10(|frac|));
  }

  /** Digits, a point and digits read back as a decimal fraction; either run
      of digits may be empty, not both. */
  lemma ParseDecimal(s: string, whole: string, frac: string)
    requires s == whole + "." + frac
    requires AllDigits(whole) && AllDigits(frac) && (whole != [] || frac != [])
    ensures ParseNumber(s) == Some(Decimal(whole, frac))
  {
    assert s == whole + "." + frac + [];
    var f := MantissaScan(whole, ".", frac, []);
    PlainValue(f);
    DecimalAsMantissa(whole, frac);
  }

  /** Digits, an exponent marker and digits: the mantissa times a power of
      ten. */
  lemma ParseScientific(s: string, m: string, e: char, x: string)
    requires s == m + [e] + x && (e == 'e' || e == 'E')
    requires AllDigits(m) && AllDigits(x) && m != [] && x != []
    ensures ParseNumber(s) == Some((DigitsValue(m) * Pow10(DigitsValue(x))) as real)
  {
    var st := ScientificScan(s, m, e, x);
    IntegerValue(st);
  }

  /** The scan of `m e x` is an integer scan with exponent `x`. */
  lemma ScientificScan(s: string, m: string, e: char, x: string) returns (st: Scan)
    requires s == m + [e] + x && (e == 'e' || e == 'E')
    requires AllDigits(m) && AllDigits(x) && m != [] && x != []
    ensures ParseNumber(s) == Some(Value(st))
    ensures st.mantissa == DigitsValue(m) && st.fracDigits == 0 && st.exponent == DigitsValue(x)
    ensures !st.expNegative && !st.negative
  {
    var w := AfterDigits(Initial, m);
    var k := w.(part := Mark);
    st := AfterExponentDigits(k, x);
    assert ParseNumber(s) == ScanFrom([e] + x, w) by {
      assert s == m + ([e] + x);
      ScanDigits(m, [e] + x, Initial);
    }
    assert ScanFrom([e] + x, w) == ScanFrom(x, k) by {
      assert ([e] + x)[0] == e && ([e] + x)[1..] == x;
      assert Step(w, e) == Some(k);
    }
    assert ScanFrom(x, k) == ScanFrom([], st) by {
      ScanExponentDigits(x, [], k);
      assert x + [] == x;
    }
    assert st.digits == |m| && st.part == Exponent;
  }

  /** One more factor of ten, for any exponent. */
  lemma ShiftStep(x: real, k: int)
    ensures Shift(x, k + 1) == Shift(x, k) * 10.0
  {
    if k < 0 && k + 1 < 0 {
      assert Shift(x, k) == Shift(x, k + 1) / 10.0;
    }
  }

  /** Shifting by `a` and then by `b` is shifting by `a + b`. */
  lemma {:induction false} ShiftAdd(x: real, a: int, b: int)
    ensures Shift(x, a + b) == Shift(Shift(x, a), b)
    decreases if b >= 0 then b else -b
  {
    if b > 0 {
      ShiftAdd(x, a, b - 1);
      ShiftStep(x, a + b - 1);
    } else if b < 0 {
      ShiftAdd(x, a, b + 1);
      ShiftStep(x, a + b);
    }
  }

  /** The scan after the mantissa `whole.frac`, or `whole` without a point:
      every mantissa digit in one integer, and the fraction's length. */
  lemma MantissaScan(whole: string, point: string, frac: string, rest: string) returns (f: Scan)
    requires point == "." || (point == "" && frac == [])
    requires AllDigits(whole) && AllDigits(frac) && (whole != [] || frac != [])
    ensures ParseNumber(whole + point + frac + rest) == ScanFrom(rest, f)
    ensures f.mantissa == DigitsValue(whole) * Pow10(|frac|) + DigitsValue(frac)
    ensures f.fracDigits == |frac| && f.digits > 0 && (f.part == Whole || f.part == Fraction)
    ensures !f.negative && !f.expNegative && f.exponent == 0
  {
    assert whole + point + frac + rest == whole + (point + frac + rest);
    ScanDigits(whole, point + frac + rest, Initial);
    var w := AfterDigits(Initial, whole);
    if point == "" {
      assert point + frac + rest == rest;
      assert Pow10(0) == 1 && DigitsValue(frac) == 0;
      f := w;
    } else {
      var p := w.(part := Fraction);
      assert Step(w, '.') == Some(p);
      ScanCons('.', frac + rest, w, p);
      assert point + frac + rest == ['.'] + (frac + rest);
      ScanDigits(frac, rest, p);
      f := AfterDigits(p, frac);
      assert DigitsValue(whole) == 0 || whole != [];
    }
  }

  /** The scan of an exponent marker, an optional sign and exponent digits
      after a mantissa. */
  lemma ExponentScan(f: Scan, e: char, sign: string, x: string) returns (g: Scan)
    requires f.digits > 0 && (f.part == Whole || f.part == Fraction)
    requires f.exponent == 0 && !f.expNegative
    requires (e == 'e' || e == 'E') && (sign == "" || sign == "+" || sign == "-")
    requires AllDigits(x) && x != []
    ensures ScanFrom([e] + sign + x, f) == Some(Value(g))
    ensures g.mantissa == f.mantissa && g.fracDigits == f.fracDigits && g.negative == f.negative
    ensures g.exponent == DigitsValue(x) && g.expNegative == (sign == "-")
  {
    var k := f.(part := Mark);
    assert Step(f, e) == Some(k);
    assert [e] + sign + x == [e] + (sign + x);
    ScanCons(e, sign + x, f, k);
    var ks := k;
    if sign != "" {
      ks := k.(part := MarkSign, expNegative := sign == "-");
      assert sign == [sign[0]];
      assert Step(k, sign[0]) == Some(ks);
      ScanCons(sign[0], x, k, ks);
    } else {
      assert sign + x == x;
    }
    ScanExponentDigits(x, [], ks);
    assert x + [] == x;
    g := AfterExponentDigits(ks, x);
  }

  /** The value of a scan with no sign: the mantissa scaled down by the
      fraction's digits, then shifted by the exponent. */
  lemma ValueByParts(g: Scan)
    requires !g.negative
    ensures Value(g) == Shift(Shift(g.mantissa as real, -(g.fracDigits as int)), SignedExponent(g))
  {
    var x := SignedExponent(g);
    ShiftAdd(g.mantissa as real, -(g.fracDigits as int), x);
    assert x - g.fracDigits == -(g.fracDigits as int) + x;
  }

  /** The number parsed as a scan with no sign whose mantissa, scaled down
      by the fraction's digits, is `d`, and whose exponent digits are worth
      `n`. */
  lemma ExponentValue(s: string, g: Scan, d: real, n: nat)
    requires ParseNumber(s) == Some(Value(g))
    requires !g.negative && Shift(g.mantissa as real, -(g.fracDigits as int)) == d
    requires g.exponent == n
    ensures ParseNumber(s) == Some(Scale(d, n, g.expNegative))
  {
    ValueByParts(g);
    ShiftScale(d, n, g.expNegative);
    assert SignedExponent(g) == if g.expNegative then -(n as int) else n;
  }

  /** Shifting by `n` places up, or down when `down` holds, is scaling by
      ten to the power of `n`. */
  lemma ShiftScale(d: real, n: nat, down: bool)
    ensures Shift(d, if down then -(n as int) else n) == Scale(d, n, down)
  {
    if down {
      ShiftDown(d, n);
    } else {
      ShiftUp(d, n);
    }
  }

  /** The integer of every digit of `whole.frac`, scaled down by the
      fraction's digits, is the decimal `whole.frac`. */
  lemma MantissaDecimal(m: nat, whole: string, frac: string)
    requires AllDigits(whole) && AllDigits(frac)
    requires m == DigitsValue(whole) * Pow10(|frac|) + DigitsValue(frac)
    ensures Shift(m as real, -(|frac| as int)) == Decimal(whole, frac)
  {
    ShiftDown(m as real, |frac|);
    DecimalAsMantissa(whole, frac);
  }

  /** A mantissa with or without a fraction, an exponent marker, an
      optional sign and exponent digits: the decimal value of the mantissa
      multiplied, or for a `-` divided, by ten to the power of the exponent
      digits' value. */
  lemma ParseExponent(s: string, whole: string, point: string, frac: string, e: char, sign: string, x: string)
    requires s == whole + point + frac + [e] + sign + x
    requires point == "." || (point == "" && frac == [])
    requires AllDigits(whole) && AllDigits(frac) && (whole != [] || frac != [])
    requires (e == 'e' || e == 'E') && (sign == "" || sign == "+" || sign == "-")
    requires AllDigits(x) && x != []
    ensures ParseNumber(s) == Some(Scale(Decimal(whole, frac), DigitsValue(x), sign == "-"))
  {
    var rest := [e] + sign + x;
    assert s == whole + point + frac + rest;
    var f := MantissaScan(whole, point, frac, rest);
    var g := ExponentScan(f, e, sign, x);
    MantissaDecimal(g.mantissa, whole, frac);
    ExponentValue(s, g, Decimal(whole, frac), DigitsValue(x));
  }

  /** A character no number contains makes the scan fail wherever it comes. */
  lemma {:induction false} ScanRejects(s: string, i: nat, st: Scan)
    requires i < |s| && Foreign(s[i])
    ensures ScanFrom(s, st) == None
    decreases i
  {
    if i == 0 {
      assert Step(st, s[0]) == None;
    } else {
      match Step(st, s[0])
        case None =>
        case Some(next) =>
          assert s[1..][i - 1] == s[i];
          ScanRejects(s[1..], i - 1, next);
    }
  }

  /** A text that holds a character other than a digit, a sign, a point or an
      exponent marker is no number. */
  lemma NotNumberText(s: string, i: nat)
    requires i < |s| && Foreign(s[i])
    ensures ParseNumber(s) == None
  {
    ScanRejects(s, i, Initial);
  }

  function Negated(r: Option<real>): Option<real>
  {
    match r
      case None => None
      case Some(v) => Some(-v)
  }

  /** Past the sign, a scan that differs only in its sign ends with the
      opposite number. */
  lemma {:induction false} ScanFlipsSign(s: string, st: Scan)
    requires st.part != Start
    ensures ScanFrom(s, st.(negative := !st.negative)) == Negated(ScanFrom(s, st))
    decreases |s|
  {
    var flipped := st.(negative := !st.negative);
    if s == [] {
      if Finish(st).Some? {
        assert Value(flipped) == -Value(st);
      }
    } else {
      match Step(st, s[0])
        case None =>
          assert Step(flipped, s[0]) == None;
        case Some(next) =>
          assert Step(flipped, s[0]) == Some(next.(negative := !next.negative));
          ScanFlipsSign(s[1..], next);
    }
  }

  /** A digit or the point read after a sign: the same move as from the
      start, with the sign's flag kept. */
  lemma StepAfterSign(neg: bool, c: char, next: Scan)
    requires (IsDigit(c) || c == '.') && Step(Initial, c) == Some(next)
    ensures Step(Initial.(part := Signed, negative := neg), c) == Some(next.(negative := neg))
  {
    if IsDigit(c) {
      assert next == Initial.(part := Whole, mantissa := DigitValue(c), digits := 1);
    } else {
      assert next == Initial.(part := Fraction);
    }
  }

  /** The first character read from the state after a sign: the same move
      as from the start, with the sign's flag kept. */
  lemma FirstAfterSign(neg: bool, s: string, next: Scan)
    requires s != [] && (IsDigit(s[0]) || s[0] == '.') && Step(Initial, s[0]) == Some(next)
    ensures ScanFrom(s, Initial.(part := Signed, negative := neg)) == ScanFrom(s[1..], next.(negative := neg))
  {
    StepAfterSign(neg, s[0], next);
    ScanHead(s, Initial.(part := Signed, negative := neg), next.(negative := neg));
  }

  /** A sign in front of the first character: the scan goes on from the
      state after that character with the sign's flag set. */
  lemma SignThenFirst(sign: char, s: string, next: Scan)
    requires sign == '+' || sign == '-'
    requires s != [] && (IsDigit(s[0]) || s[0] == '.') && Step(Initial, s[0]) == Some(next)
    ensures ParseNumber([sign] + s) == ScanFrom(s[1..], next.(negative := sign == '-'))
  {
    ScanCons(sign, s, Initial, Initial.(part := Signed, negative := sign == '-'));
    FirstAfterSign(sign == '-', s, next);
  }

  /** A leading `-` negates the number that follows and a leading `+` keeps
      it, when what follows starts with a digit or the point. */
  lemma ParseSigned(s: string)
    requires s != [] && (IsDigit(s[0]) || s[0] == '.')
    ensures ParseNumber("-" + s) == Negated(ParseNumber(s))
    ensures ParseNumber("+" + s) == ParseNumber(s)
  {
    assert Step(Initial, s[0]).Some?;
    var next := Step(Initial, s[0]).value;
    assert !next.negative && next.part != Start;
    assert ParseNumber(s) == ScanFrom(s[1..], next) by {
      ScanHead(s, Initial, next);
    }
    assert next.(negative := false) == next;
    SignThenFirst('+', s, next);
    SignThenFirst('-', s, next);
    assert "+" + s == ['+'] + s && "-" + s == ['-'] + s;
    ScanFlipsSign(s[1..], next);
  }

  lemma PiDigits(f: string)
    requires f == "141592"
    ensures AllDigits(f) && DigitsValue(f) == 141592
  {
    assert DigitsValue("1") == 1 by {
      DigitsSnoc("", '1');
      assert "" + ['1'] == "1";
    }
    assert DigitsValue("14") == 14 by {
      DigitsSnoc("1", '4');
      assert "1" + ['4'] == "14";
    }
    assert DigitsValue("141") == 141 by {
      DigitsSnoc("14", '1');
      assert "14" + ['1'] == "141";
    }
    assert DigitsValue("1415") == 1415 by {
      DigitsSnoc("141", '5');
      assert "141" + ['5'] == "1415";
    }
    assert DigitsValue("14159") == 14159 by {
      DigitsSnoc("1415", '9');
      assert "1415" + ['9'] == "14159";
    }
    DigitsSnoc("14159", '2');
    assert "14159" + ['2'] == f;
  }

  /** The number of the example program, `3.141592`. The text is a parameter fixed by the requires, so that the literal is
      unfolded here and not in the callers of this lemma. */
  lemma ParsePi(s: string)
    requires s == "3.141592"
    ensures ParseNumber(s) == Some(3.141592)
  {
    PiDigits("141592");
    assert DigitsValue("3") == 3 by {
      DigitsSnoc("", '3');
      assert "" + ['3'] == "3";
    }
    ParseDecimal(s, "3", "141592");
    assert Pow10(6) == 1000000;
    assert Decimal("3", "141592") == 3.0 + 141592.0 / 1000000.0;
  }
}
