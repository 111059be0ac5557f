/** Printing token amounts: `string(from:)` of SafeUIKit/SafeUIKit/TokenFormatter.swift. */
module TokenFormatter {
  import opened Outcomes
  import opened Bytes
  import opened DecimalText
  import opened Grouping

  datatype BigDecimal = BigDecimal(value: int, precision: nat)

  datatype Style = Style(decimalSeparator: string, thousandSeparator: string,
                         millions: string, billions: string, trillions: string, forcePlusSign: bool)

  function Magnitude(number: BigDecimal): nat {
    if number.value < 0 then -number.value else number.value
  }

  // ----- Digits before and after the point -----

  /** The digits, with zeroes in front until there is one before the point. */
  function PaddedDigits(v: nat, p: nat): (s: string)
    ensures |s| > p
  {
    var digits := Decimal(v);
    Zeros(if p + 1 > |digits| then p + 1 - |digits| else 0) + digits
  }

  function IntegerDigits(v: nat, p: nat): string {
    var s := PaddedDigits(v, p);
    s[..|s| - p]
  }

  function FractionDigits(v: nat, p: nat): string {
    var s := PaddedDigits(v, p);
    s[|s| - p..]
  }

  /** The digits before the point are the numeral of the whole part, those after it spell the remainder. */
  lemma DigitsMeaning(v: nat, p: nat)
    ensures IntegerDigits(v, p) == Decimal(Over(v, p))
    ensures |FractionDigits(v, p)| == p && IsDigits(FractionDigits(v, p))
    ensures Value(FractionDigits(v, p)) == Below(v, p)
  {
    hide Decimal, Value, Ten, IsDigit;
    var digits, s := Decimal(v), PaddedDigits(v, p);
    LeadingZeros(if p + 1 > |digits| then p + 1 - |digits| else 0, digits);
    ValueOfDecimal(v);
    ValueSplit(s, p);
    if |digits| > p {
      assert s == digits;
      DecimalPrefix(v, p);
    } else {
      WholePartZero(v, p);
      assert s[..|s| - p] == "0";
    }
  }

  lemma WholePartZero(v: nat, p: nat)
    requires |Decimal(v)| <= p
    ensures Over(v, p) == 0 && Decimal(Over(v, p)) == "0"
  {
    hide Decimal;
    DecimalLength(v);
    PowMonotone(10, |Decimal(v)|, p);
    DivModUnique(v, Ten(p), 0, v);
    DecimalLength(0);
  }

  // ----- What is shown -----

  datatype Shown = TooBig | Amount(integer: string, fraction: string, degree: nat)

  function FullForm(v: nat, p: nat): Shown {
    Amount(IntegerDigits(v, p), TrimZeroes(FractionDigits(v, p)), 0)
  }

  function DecimalDigitCount(count: nat): nat {
    var room := if count < 8 then 8 - count else 0;
    if room < 5 then room else 5
  }

  function Abbreviated(integer: string, degree: nat): Shown
    requires degree <= |integer|
  {
    Amount(integer[..|integer| - degree], TrimZeroes(Prefix(Suffix(integer, degree), 3)), degree)
  }

  function ShortParts(integer: string, fraction: string): Shown {
    var count := |integer|;
    if count <= 8 then Amount(integer, TrimZeroes(Prefix(fraction, DecimalDigitCount(count))), 0)
    else if count == 9 then Abbreviated(integer, 6)
    else if count < 13 then Abbreviated(integer, 9)
    else if count < 16 then Abbreviated(integer, 12)
    else TooBig
  }

  function ShortForm(v: nat, p: nat): Shown {
    ShortParts(IntegerDigits(v, p), TrimZeroes(FractionDigits(v, p)))
  }

  function Literal(degree: nat, style: Style): string {
    if degree == 6 then style.millions
    else if degree == 9 then style.billions
    else if degree == 12 then style.trillions
    else ""
  }

  function PlusSign(negative: bool, style: Style): string {
    if !negative && style.forcePlusSign then "+" else ""
  }

  function MagnitudeText(shown: Shown, style: Style): string
    requires shown.Amount?
  {
    var grouped := Join(Groups(shown.integer, 3), style.thousandSeparator);
    if shown.fraction == "" then grouped else grouped + style.decimalSeparator + shown.fraction
  }

  function Render(shown: Shown, negative: bool, style: Style): string {
    if shown.TooBig? then
      if negative then "< -999" + style.trillions
      else "> " + PlusSign(negative, style) + "999" + style.trillions
    else
      var magnitude := MagnitudeText(shown, style);
      var sign := if magnitude == "0" then "" else if negative then "-" else PlusSign(negative, style);
      sign + magnitude + Literal(shown.degree, style)
  }

  function Format(number: BigDecimal, style: Style, shortFormat: bool): string {
    var v := Magnitude(number);
    Render(if shortFormat then ShortForm(v, number.precision) else FullForm(v, number.precision),
           number.value < 0, style)
  }

  /** The switch on the number of digits, and the thousands that replace the fraction from millions up. */
  method Shorten(digits: string, decimals: string) returns (shown: Shown)
    ensures shown == ShortParts(digits, decimals)
  {
    hide TrimZeroes;
    var integer, fractional, degree := digits, decimals, 0;
    if |integer| <= 8 {
      var room := if 8 - |integer| > 0 then 8 - |integer| else 0;
      var decimalDigitCount := if room < 5 then room else 5;
      fractional := RemovingTrailingZeroes(Prefix(fractional, decimalDigitCount));
    } else if |integer| == 9 {
      degree := 6;
    } else if 10 <= |integer| < 13 {
      degree := 9;
    } else if 13 <= |integer| < 16 {
      degree := 12;
    } else {
      return TooBig;
    }
    if degree > 0 {
      fractional := RemovingTrailingZeroes(Prefix(Suffix(integer, degree), 3));
      integer := Prefix(integer, |integer| - degree);
    }
    return Amount(integer, fractional, degree);
  }

  /** The formatter as written, step by step on its local strings. */
  method StringFrom(number: BigDecimal, style: Style, shortFormat: bool) returns (r: string)
    ensures r == Format(number, style, shortFormat)
  {
    hide Decimal, Groups, Join, TrimZeroes, Zeros, ShortParts;
    var text := Decimal(Magnitude(number));
    var leading := if number.precision - |text| + 1 > 0 then number.precision - |text| + 1 else 0;
    text := Zeros(leading) + text;
    assert text == PaddedDigits(Magnitude(number), number.precision);
    var fractional := Suffix(text, number.precision);
    var integer := Prefix(text, |text| - |fractional|);
    assert fractional == FractionDigits(Magnitude(number), number.precision);
    assert integer == IntegerDigits(Magnitude(number), number.precision);
    hide IntegerDigits, FractionDigits, PaddedDigits, Magnitude;
    fractional := RemovingTrailingZeroes(fractional);

    var isNegative := number.value < 0;
    var negativeSign := if isNegative then "-" else "";
    var positiveSign := if !isNegative && style.forcePlusSign then "+" else "";
    var shown := Amount(integer, fractional, 0);
    if shortFormat {
      shown := Shorten(integer, fractional);
      if shown.TooBig? {
        return if isNegative then "< -999" + style.trillions else "> " + positiveSign + "999" + style.trillions;
      }
    }
    var integerGroupped := Join(Groups(shown.integer, 3), style.thousandSeparator);
    var magnitude := if shown.fraction == "" then integerGroupped
                     else integerGroupped + style.decimalSeparator + shown.fraction;
    var sign := if magnitude != "0" then (if isNegative then negativeSign else positiveSign) else "";
    return sign + magnitude + Literal(shown.degree, style);
  }

  // ----- The bands, by magnitude -----

  /** Decimals kept, and the power of ten the number is counted in. */
  datatype Band = Band(decimals: nat, degree: nat)

  /** The documented rule for a whole part of `n`. */
  function BandOf(n: nat): Option<Band> {
    if n < 1_000 then Some(Band(5, 0))
    else if n < 10_000 then Some(Band(4, 0))
    else if n < 100_000 then Some(Band(3, 0))
    else if n < 1_000_000 then Some(Band(2, 0))
    else if n < 10_000_000 then Some(Band(1, 0))
    else if n < 100_000_000 then Some(Band(0, 0))
    else if n < 1_000_000_000 then Some(Band(3, 6))
    else if n < 1_000_000_000_000 then Some(Band(3, 9))
    else if n < 1_000_000_000_000_000 then Some(Band(3, 12))
    else None
  }

  lemma SmallTens()
    ensures Ten(0) == 1 && Ten(1) == 10 && Ten(2) == 100 && Ten(3) == 1_000 && Ten(4) == 10_000 && Ten(5) == 100_000
  {}

  lemma LargeTens()
    ensures Ten(6) == 1_000_000 && Ten(7) == 10_000_000 && Ten(8) == 100_000_000 && Ten(9) == 1_000_000_000
    ensures Ten(12) == 1_000_000_000_000 && Ten(15) == 1_000_000_000_000_000
  {
    hide Ten;
    SmallTens();
    TenAdd(3, 3);
    TenAdd(4, 3);
    TenAdd(4, 4);
    TenAdd(5, 4);
    TenAdd(6, 6);
    TenAdd(12, 3);
  }

  lemma DigitCount(n: nat, k: nat)
    requires k > 0
    ensures |Decimal(n)| <= k <==> n < Ten(k)
  {
    hide Decimal;
    DecimalLength(n);
    if |Decimal(n)| <= k {
      PowMonotone(10, |Decimal(n)|, k);
    } else if n > 0 {
      PowMonotone(10, k, |Decimal(n)| - 1);
    }
  }

  /** The switch on the number of digits follows the documented magnitudes. */
  lemma ShortFormBand(v: nat, p: nat)
    ensures var integer := Decimal(Over(v, p));
      match BandOf(Over(v, p))
      case None => ShortForm(v, p) == TooBig
      case Some(Band(decimals, degree)) =>
        if degree == 0
        then ShortForm(v, p) ==
             Amount(integer, TrimZeroes(Prefix(TrimZeroes(FractionDigits(v, p)), decimals)), 0)
        else degree >= 3 && |integer| > degree && ShortForm(v, p) == Abbreviated(integer, degree)
  {
    hide Decimal, Ten, TrimZeroes, FractionDigits, IntegerDigits;
    var n := Over(v, p);
    DigitsMeaning(v, p);
    DigitCount(n, 3);
    DigitCount(n, 4);
    DigitCount(n, 5);
    DigitCount(n, 6);
    DigitCount(n, 7);
    DigitCount(n, 8);
    DigitCount(n, 9);
    DigitCount(n, 12);
    DigitCount(n, 15);
    SmallTens();
    LargeTens();
  }

  // ----- Short format: soundness -----

  /** The fraction read with a fixed number of decimals. */
  function FractionUnits(fraction: string, decimals: nat): nat
    requires IsDigits(fraction) && |fraction| <= decimals
  {
    Value(fraction) * Ten(decimals - |fraction|)
  }

  predicate Readable(shown: Shown, decimals: nat) {
    shown.Amount? && IsDigits(shown.integer) && IsDigits(shown.fraction) && |shown.fraction| <= decimals
  }

  /** The shown number, in units of its last decimal. */
  function Units(shown: Shown, decimals: nat): nat
    requires Readable(shown, decimals)
  {
    Value(shown.integer) * Ten(decimals) + FractionUnits(shown.fraction, decimals)
  }

  lemma OverOfMultiple(q: nat, r: nat, e: nat)
    ensures Over(q * Ten(e) + r, e) == q + Over(r, e)
  {
    hide Ten;
    OverBelow(r, e);
    MulDistributes(q, Over(r, e), Ten(e));
    DivModUnique(q * Ten(e) + r, Ten(e), q + Over(r, e), Below(r, e));
  }

  lemma OverTwice(n: nat, a: nat, b: nat)
    ensures Over(Over(n, a), b) == Over(n, a + b)
  {
    hide Ten;
    TenAdd(a, b);
    DivTwice(n, Ten(a), Ten(b));
  }

  lemma OverScaled(n: nat, k: nat, e: nat)
    ensures Over(n * Ten(k), e + k) == Over(n, e)
  {
    hide Ten;
    OverTwice(n * Ten(k), k, e);
    OverOfMultiple(n, 0, k);
    DivModUnique(0, Ten(k), 0, 0);
  }

  lemma CutText(digits: string, decimals: nat)
    ensures var f := TrimZeroes(Prefix(TrimZeroes(digits), decimals));
      |f| <= decimals && (digits + Zeros(decimals))[..decimals] == f + Zeros(decimals - |f|)
  {
    hide IsDigits, TrimZeroes, Zeros;
    var x := Prefix(TrimZeroes(digits), decimals);
    TrimThenPad(digits);
    TrimThenPad(x);
  }

  lemma CutDigits(digits: string, decimals: nat)
    requires IsDigits(digits)
    ensures IsDigits(TrimZeroes(Prefix(TrimZeroes(digits), decimals)))
  {
    hide TrimZeroes, IsDigit;
  }

  /** Digits cut at `decimals` and stripped of zeroes still spell the cut fraction. */
  lemma CutFraction(digits: string, decimals: nat)
    requires IsDigits(digits)
    ensures var f := TrimZeroes(Prefix(TrimZeroes(digits), decimals));
      && IsDigits(f) && |f| <= decimals
      && FractionUnits(f, decimals) == Over(Value(digits) * Ten(decimals), |digits|)
  {
    hide Value, Ten, IsDigits, TrimZeroes, Zeros;
    var f := TrimZeroes(Prefix(TrimZeroes(digits), decimals));
    CutText(digits, decimals);
    CutDigits(digits, decimals);
    var whole := digits + Zeros(decimals);
    TrailingZeros(digits, decimals);
    TrailingZeros(f, decimals - |f|);
    ValueSplit(whole, |digits|);
  }

  lemma UnitsBelowMillions(n: nat, r: nat, p: nat, decimals: nat)
    requires r < Ten(p)
    ensures n * Ten(decimals) + Over(r * Ten(decimals), p) == Over((n * Ten(p) + r) * Ten(decimals), p)
  {
    hide Ten;
    var t, d := Ten(p), Ten(decimals);
    assert (n * t + r) * d == (n * d) * t + r * d by {
      MulDistributes(n * t, r, d);
      MulAssociates(n, t, d);
      MulAssociates(n, d, t);
      assert t * d == d * t;
    }
    OverOfMultiple(n * d, r * d, p);
  }

  /** Counting in millions, billions or trillions with three decimals. */
  lemma UnitsAbbreviated(n: nat, degree: nat)
    requires 3 <= degree < |Decimal(n)|
    ensures Readable(Abbreviated(Decimal(n), degree), 3)
    ensures Units(Abbreviated(Decimal(n), degree), 3) == Over(n, degree - 3)
  {
    hide Decimal, Value, Ten, IsDigit, TrimZeroes, Over, Below;
    var s := Decimal(n);
    var high, low := s[..|s| - degree], s[|s| - degree..];
    ValueOfDecimal(n);
    ValueSplit(s, degree);
    var x := low[..3];
    var f := TrimZeroes(x);
    assert Suffix(s, degree) == low && Prefix(low, 3) == x;
    assert Abbreviated(s, degree) == Amount(high, f, degree);
    TrimmedValue(x);
    ValueSplit(low, degree - 3);
    assert low[..|low| - (degree - 3)] == x;
    assert Value(x) == Over(Below(n, degree), degree - 3);
    TenAdd(3, degree - 3);
    OverBelow(n, degree);
    MulAssociates(Over(n, degree), Ten(3), Ten(degree - 3));
    OverOfMultiple(Over(n, degree) * Ten(3), Below(n, degree), degree - 3);
  }

  ghost predicate ShowsFloor(shown: Shown, v: nat, p: nat, b: Band) {
    && Readable(shown, b.decimals) && shown.degree == b.degree
    && Units(shown, b.decimals) == Over(v * Ten(b.decimals), p + b.degree)
  }

  /** The short format shows the amount rounded down to the last digit its band allows. */
  lemma ShortFormIsFloor(v: nat, p: nat, b: Band)
    requires BandOf(Over(v, p)) == Some(b)
    ensures ShowsFloor(ShortForm(v, p), v, p, b)
  {
    hide Decimal, ShortForm, Abbreviated, TrimZeroes, FractionDigits, Over, Ten, Units, Readable;
    var n := Over(v, p);
    ShortFormBand(v, p);
    if b.degree == 0 {
      ShortFormBelowMillions(v, p, b);
    } else {
      UnitsAbbreviated(n, b.degree);
      OverTwice(v, p, b.degree - 3);
      OverScaled(v, 3, p + b.degree - 3);
      AbbreviatedDegree(Decimal(n), b.degree);
    }
  }

  lemma AbbreviatedDegree(integer: string, degree: nat)
    requires degree <= |integer|
    ensures Abbreviated(integer, degree).Amount? && Abbreviated(integer, degree).degree == degree
  {}

  lemma ShortFormBelowMillions(v: nat, p: nat, b: Band)
    requires b.degree == 0
    ensures ShowsFloor(Amount(Decimal(Over(v, p)), TrimZeroes(Prefix(TrimZeroes(FractionDigits(v, p)), b.decimals)), 0),
                       v, p, b)
  {
    hide Decimal, TrimZeroes, FractionDigits, Over, Ten, IsDigits, Value, IntegerDigits;
    DigitsMeaning(v, p);
    OverBelow(v, p);
    CutFraction(FractionDigits(v, p), b.decimals);
    UnitsBelowMillions(Over(v, p), Below(v, p), p, b.decimals);
    ValueOfDecimal(Over(v, p));
  }

  /** So it never shows more than the amount, and falls short by less than one unit of the last digit. */
  lemma ShortFormBounds(v: nat, p: nat, b: Band)
    requires BandOf(Over(v, p)) == Some(b)
    ensures Readable(ShortForm(v, p), b.decimals)
    ensures Units(ShortForm(v, p), b.decimals) * Ten(p + b.degree) <= v * Ten(b.decimals)
    ensures v * Ten(b.decimals) < (Units(ShortForm(v, p), b.decimals) + 1) * Ten(p + b.degree)
  {
    hide ShortForm, Ten, Over, Units, Readable;
    ShortFormIsFloor(v, p, b);
    var u := Over(v * Ten(b.decimals), p + b.degree);
    OverBelow(v * Ten(b.decimals), p + b.degree);
    MulDistributes(u, 1, Ten(p + b.degree));
  }

  // ----- Short format: order -----

  /** The shown amount in hundred-thousandths, the finest unit of any band. */
  function Displayed(v: nat, p: nat, b: Band): nat
    requires b.decimals <= 5
  {
    Over(v * Ten(b.decimals), p + b.degree) * Ten(5 - b.decimals + b.degree)
  }

  lemma OverMonotone(a: nat, b: nat, e: nat)
    requires a <= b
    ensures Over(a, e) <= Over(b, e)
  {
    hide Ten;
    OverBelow(a, e);
    OverBelow(b, e);
    if Over(a, e) > Over(b, e) {
      MulMonotone(Over(b, e) + 1, Over(a, e), Ten(e));
      MulDistributes(Over(b, e), 1, Ten(e));
    }
  }

  /** Rounding down in a band never goes below a multiple of its unit that the amount has reached. */
  lemma ReachesMultiple(v: nat, p: nat, b: Band, multiple: nat)
    requires b.decimals <= 5 && multiple * Ten(p + b.degree) <= v * Ten(b.decimals)
    ensures multiple * Ten(5 - b.decimals + b.degree) <= Displayed(v, p, b)
  {
    hide Ten;
    OverMonotone(multiple * Ten(p + b.degree), v * Ten(b.decimals), p + b.degree);
    OverOfMultiple(multiple, 0, p + b.degree);
    MulMonotone(multiple, Over(v * Ten(b.decimals), p + b.degree), Ten(5 - b.decimals + b.degree));
  }

  lemma ScaleUp(shown: nat, v: nat, p: nat, d: nat, g: nat)
    requires d <= 5 && shown * Ten(p + g) <= v * Ten(d)
    ensures shown * Ten(5 - d + g) * Ten(p) <= v * Ten(5)
  {
    hide Ten;
    TenAdd(5 - d, d);
    TenAdd(p, g);
    TenAdd(5 - d, g);
    var a, b, c, e := Ten(5 - d), Ten(g), Ten(p), Ten(d);
    MulMonotone(shown * (c * b), v * e, a);
    assert shown * (a * b) * c == (shown * (c * b)) * a by { Shuffle(shown, a, b, c); }
    assert (v * e) * a == v * (a * e) by { MulAssociates(v, e, a); }
  }

  lemma Shuffle(s: nat, a: nat, b: nat, c: nat)
    ensures s * (a * b) * c == (s * (c * b)) * a
  {
    MulAssociates(s, a * b, c);
    MulAssociates(s, c * b, a);
    assert (a * b) * c == (c * b) * a by {
      MulAssociates(a, b, c);
      assert b * c == c * b && a * (c * b) == (c * b) * a;
    }
  }
}
