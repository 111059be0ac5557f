/** What a reader sees in a printed amount: the order of short amounts, their sign, and the number their text
    spells. All about `string(from:)` of SafeUIKit/SafeUIKit/TokenFormatter.swift. */
module TokenReading {
  import opened Outcomes
  import opened Bytes
  import opened DecimalText
  import opened Grouping
  import opened TokenFormatter

  // ----- Order -----

  /** The smallest whole part of a band. */
  function BandStart(b: Band): nat {
    if b.degree == 6 then 100_000_000
    else if b.degree == 9 then 1_000_000_000
    else if b.degree == 12 then 1_000_000_000_000
    else if b.decimals == 0 then 10_000_000
    else if b.decimals == 1 then 1_000_000
    else if b.decimals == 2 then 100_000
    else if b.decimals == 3 then 10_000
    else if b.decimals == 4 then 1_000
    else 0
  }

  /** The start of a band in units of its last shown digit: a whole number of them. */
  function StartUnits(b: Band): nat {
    if b.degree == 6 then 100_000
    else if b.degree == 9 || b.degree == 12 then 1_000
    else if b.decimals == 0 then 10_000_000
    else if b.decimals == 5 then 0
    else 10_000_000
  }

  lemma BandFacts(n: nat, b: Band)
    requires BandOf(n) == Some(b)
    ensures b.decimals <= 5 && BandStart(b) <= n
    ensures StartUnits(b) * Ten(b.degree) == BandStart(b) * Ten(b.decimals)
  {
    hide Ten;
    SmallTens();
    LargeTens();
  }

  lemma LowerBand(m: nat, n: nat, a: Band, b: Band)
    requires m <= n && BandOf(m) == Some(a) && BandOf(n) == Some(b) && a != b
    ensures m < BandStart(b)
  {}

  lemma StartIsShown(v: nat, p: nat, b: Band)
    requires BandOf(Over(v, p)) == Some(b)
    ensures b.decimals <= 5
    ensures BandStart(b) * Ten(5) <= Displayed(v, p, b)
  {
    hide Ten, Over, BandOf, BandStart, StartUnits, Displayed;
    BandFacts(Over(v, p), b);
    OverBelow(v, p);
    var t, d, u := BandStart(b), b.decimals, StartUnits(b);
    assert u * Ten(p + b.degree) <= v * Ten(d) by {
      TenAdd(p, b.degree);
      MulMonotone(t, Over(v, p), Ten(p));
      MulMonotone(t * Ten(p), v, Ten(d));
      Interchange(u, Ten(b.degree), t, Ten(d), Ten(p));
    }
    ReachesMultiple(v, p, b, u);
    assert u * Ten(5 - d + b.degree) == t * Ten(5) by {
      TenAdd(5 - d, b.degree);
      TenAdd(d, 5 - d);
      Rescale(u, Ten(b.degree), t, Ten(d), Ten(5 - d));
    }
  }

  lemma Interchange(u: nat, g: nat, t: nat, d: nat, p: nat)
    requires u * g == t * d
    ensures u * (p * g) == t * p * d
  {
    MulAssociates(u, g, p);
    MulAssociates(t, d, p);
    MulAssociates(t, p, d);
    assert p * g == g * p && d * p == p * d;
  }

  lemma Rescale(u: nat, g: nat, t: nat, d: nat, r: nat)
    requires u * g == t * d
    ensures u * (r * g) == t * (d * r)
  {
    MulAssociates(u, g, r);
    MulAssociates(t, d, r);
    assert r * g == g * r;
  }

  lemma ShownBelow(v: nat, p: nat, b: Band, limit: nat)
    requires b.decimals <= 5 && Over(v, p) < limit
    ensures Displayed(v, p, b) < limit * Ten(5)
  {
    hide Ten, Over;
    var shown := Over(v * Ten(b.decimals), p + b.degree);
    OverBelow(v * Ten(b.decimals), p + b.degree);
    ScaleUp(shown, v, p, b.decimals, b.degree);
    OverBelow(v, p);
    MulDistributes(Over(v, p), 1, Ten(p));
    MulMonotone(Over(v, p) + 1, limit, Ten(p));
    assert v < limit * Ten(p);
    StrictScale(Displayed(v, p, b), v, limit, Ten(p), Ten(5));
  }

  lemma StrictScale(shown: nat, v: nat, limit: nat, t: nat, f: nat)
    requires t > 0 && f > 0 && shown * t <= v * f && v < limit * t
    ensures shown < limit * f
  {
    MulMonotone(v + 1, limit * t, f);
    MulDistributes(v, 1, f);
    MulAssociates(limit, t, f);
    MulAssociates(limit, f, t);
    assert t * f == f * t;
    if limit * f <= shown {
      MulMonotone(limit * f, shown, t);
    }
  }

  /** Of two amounts with the same precision, the larger is never shown as the smaller. */
  lemma ShortFormKeepsOrder(v: nat, w: nat, p: nat, a: Band, b: Band)
    requires v <= w && BandOf(Over(v, p)) == Some(a) && BandOf(Over(w, p)) == Some(b)
    ensures a.decimals <= 5 && b.decimals <= 5
    ensures Displayed(v, p, a) <= Displayed(w, p, b)
  {
    hide Ten, Over, BandOf, BandStart;
    BandFacts(Over(v, p), a);
    BandFacts(Over(w, p), b);
    OverMonotone(v, w, p);
    if a == b {
      MulMonotone(v, w, Ten(a.decimals));
      OverMonotone(v * Ten(a.decimals), w * Ten(a.decimals), p + a.degree);
      MulMonotone(Over(v * Ten(a.decimals), p + a.degree), Over(w * Ten(a.decimals), p + a.degree),
                  Ten(5 - a.decimals + a.degree));
    } else {
      LowerBand(Over(v, p), Over(w, p), a, b);
      ShownBelow(v, p, a, BandStart(b));
      StartIsShown(w, p, b);
    }
  }

  // ----- Sign -----

  lemma {:induction false} JoinNotShorter(s: string, size: nat, separator: string)
    requires size > 0
    ensures |Join(Groups(s, size), separator)| >= |s|
    decreases |s|
  {
    hide Groups, Join;
    if |s| <= size {
      JoinShort(s, size, separator);
    } else {
      JoinGroupsStep(s, size, separator);
      JoinNotShorter(s[..|s| - size], size, separator);
    }
  }

  lemma MagnitudeZero(shown: Shown, style: Style)
    requires shown.Amount? && shown.integer != ""
    ensures MagnitudeText(shown, style) == "0" <==> shown.integer == "0" && shown.fraction == ""
  {
    hide Groups, Join;
    JoinNotShorter(shown.integer, 3, style.thousandSeparator);
    if |shown.integer| <= 3 {
      JoinShort(shown.integer, 3, style.thousandSeparator);
    }
  }

  lemma {:induction false} TrimmedIsPositive(f: string)
    requires IsDigits(f) && f != "" && f[|f| - 1] != '0'
    ensures Value(f) > 0
  {
    var last := f[|f| - 1];
    assert IsDigit(last) && DigitValue(last) > 0;
  }

  lemma DecimalZero(n: nat)
    ensures Decimal(n) == "0" <==> n == 0
  {
    hide Decimal;
    ValueOfDecimal(n);
    DecimalLength(n);
    assert Value("0") == 0 by { assert "0"[..0] == ""; }
  }

  lemma ShortFormShape(v: nat, p: nat, b: Band)
    requires BandOf(Over(v, p)) == Some(b)
    ensures ShortForm(v, p).Amount? && ShortForm(v, p).integer == Decimal(Over(v, p + b.degree))
    ensures ShortForm(v, p).fraction == "" || ShortForm(v, p).fraction[|ShortForm(v, p).fraction| - 1] != '0'
  {
    hide Decimal, Ten, Over, BandOf, FractionDigits, ShortForm;
    ShortFormBand(v, p);
    if b.degree > 0 {
      DecimalPrefix(Over(v, p), b.degree);
      OverTwice(v, p, b.degree);
    }
  }

  lemma ProductPositive(a: nat, b: nat)
    requires b > 0
    ensures a * b == 0 <==> a == 0
  {}

  /** The text shows zero exactly when the rounded amount is zero. */
  lemma ZeroText(v: nat, p: nat, b: Band, style: Style)
    requires BandOf(Over(v, p)) == Some(b)
    ensures b.decimals <= 5 && ShortForm(v, p).Amount?
    ensures MagnitudeText(ShortForm(v, p), style) == "0" <==> Displayed(v, p, b) == 0
  {
    hide Decimal, Ten, Over, BandOf, ShortForm, MagnitudeText, Value, IsDigits;
    BandFacts(Over(v, p), b);
    ShortFormShape(v, p, b);
    ShortFormIsFloor(v, p, b);
    var shown := ShortForm(v, p);
    MagnitudeZero(shown, style);
    var whole := Over(v, p + b.degree);
    DecimalZero(whole);
    ValueOfDecimal(whole);
    ProductPositive(whole, Ten(b.decimals));
    ProductPositive(Over(v * Ten(b.decimals), p + b.degree), Ten(5 - b.decimals + b.degree));
    ProductPositive(Value(shown.fraction), Ten(b.decimals - |shown.fraction|));
    if shown.fraction != "" {
      TrimmedIsPositive(shown.fraction);
    } else {
      EmptyValue();
    }
  }

  lemma EmptyValue()
    ensures Value("") == 0
  {}

  /** The sign in front of a short amount. */
  function SignOf(negative: bool, displayed: nat, style: Style): string {
    if displayed == 0 then "" else if negative then "-" else if style.forcePlusSign then "+" else ""
  }

  /** A minus is shown exactly when the amount is negative and not rounded to zero. */
  lemma ShortTextParts(number: BigDecimal, b: Band, style: Style)
    requires BandOf(Over(Magnitude(number), number.precision)) == Some(b)
    ensures b.decimals <= 5 && ShortForm(Magnitude(number), number.precision).Amount?
    ensures var v, p := Magnitude(number), number.precision;
      Format(number, style, true) ==
      SignOf(number.value < 0, Displayed(v, p, b), style) + MagnitudeText(ShortForm(v, p), style) +
      Literal(b.degree, style)
  {
    hide Ten, Over, BandOf, ShortForm, MagnitudeText, Literal, Displayed;
    var v, p := Magnitude(number), number.precision;
    ZeroText(v, p, b, style);
    ShortFormIsFloor(v, p, b);
  }

  // ----- The number the text spells -----

  function DefaultStyle(forcePlusSign: bool): Style {
    Style(".", ",", "M", "B", "T", forcePlusSign)
  }

  function OnlyDigits(s: string): (r: string)
    ensures IsDigits(r)
  {
    if s == "" then "" else OnlyDigits(s[..|s| - 1]) + (if IsDigit(s[|s| - 1]) then [s[|s| - 1]] else "")
  }

  /** The position of the decimal point, or the length. */
  function PointAt(s: string): (k: nat)
    ensures k <= |s|
  {
    if s == "" || s[0] == '.' then 0 else 1 + PointAt(s[1..])
  }

  function WithoutSign(text: string): string {
    if text != "" && (text[0] == '-' || text[0] == '+') then text[1..] else text
  }

  function DegreeOf(text: string): nat {
    if text == "" then 0
    else
      var last := text[|text| - 1];
      if last == 'M' then 6 else if last == 'B' then 9 else if last == 'T' then 12 else 0
  }

  function WithoutLiteral(text: string): string {
    if DegreeOf(text) > 0 then text[..|text| - 1] else text
  }

  /** The number a plain amount such as `1,234.5` spells, in hundred-thousandths. */
  function ReadPlain(text: string): nat {
    var k := PointAt(text);
    var whole, part := OnlyDigits(text[..k]), OnlyDigits(text[k..]);
    Value(whole) * Ten(5) + (if |part| <= 5 then Value(part) * Ten(5 - |part|) else 0)
  }

  /** The number a printed amount spells: sign aside, grouping ignored, the literal multiplying. */
  function ReadAmount(text: string): nat {
    var unsigned := WithoutSign(text);
    ReadPlain(WithoutLiteral(unsigned)) * Ten(DegreeOf(unsigned))
  }

  predicate IsGrouped(s: string) {
    forall i | 0 <= i < |s| :: IsDigit(s[i]) || s[i] == ','
  }

  lemma {:induction false} OnlyDigitsConcat(a: string, b: string)
    ensures OnlyDigits(a + b) == OnlyDigits(a) + OnlyDigits(b)
  {
    if b == "" {
      assert a + b == a;
    } else {
      OnlyDigitsConcat(a, b[..|b| - 1]);
      assert (a + b)[..|a + b| - 1] == a + b[..|b| - 1];
    }
  }

  lemma {:induction false} OnlyDigitsOfDigits(s: string)
    requires IsDigits(s)
    ensures OnlyDigits(s) == s
  {
    if s != "" {
      OnlyDigitsOfDigits(s[..|s| - 1]);
      assert s == s[..|s| - 1] + [s[|s| - 1]];
    }
  }

  lemma {:induction false} GroupedText(s: string)
    requires IsDigits(s)
    ensures OnlyDigits(Join(Groups(s, 3), ",")) == s
    ensures IsGrouped(Join(Groups(s, 3), ","))
    decreases |s|
  {
    hide Groups, Join, OnlyDigits, IsDigit;
    if |s| <= 3 {
      JoinShort(s, 3, ",");
      OnlyDigitsOfDigits(s);
    } else {
      var init, last := s[..|s| - 3], s[|s| - 3..];
      JoinGroupsStep(s, 3, ",");
      GroupedText(init);
      var g := Join(Groups(init, 3), ",");
      OnlyDigitsConcat(g + ",", last);
      OnlyDigitsConcat(g, ",");
      CommaIsNoDigit();
      OnlyDigitsOfDigits(last);
      assert s == init + last;
    }
  }

  lemma CommaIsNoDigit()
    ensures OnlyDigits(",") == "" && OnlyDigits(".") == ""
  {
    assert ","[..0] == "" && "."[..0] == "";
  }

  lemma {:induction false} PointAfter(a: string, b: string)
    requires IsGrouped(a) && (b == "" || b[0] == '.')
    ensures PointAt(a + b) == |a|
  {
    if a != "" {
      PointAfter(a[1..], b);
      assert (a + b)[1..] == a[1..] + b;
    } else {
      assert a + b == b;
    }
  }

  lemma ReadAtPoint(whole: string, tail: string)
    requires PointAt(whole + tail) == |whole| && |OnlyDigits(tail)| <= 5
    ensures ReadPlain(whole + tail) ==
            Value(OnlyDigits(whole)) * Ten(5) + Value(OnlyDigits(tail)) * Ten(5 - |OnlyDigits(tail)|)
  {
    hide OnlyDigits, PointAt, Ten, Value, IsDigits;
    var text := whole + tail;
    assert text[..|whole|] == whole && text[|whole|..] == tail;
  }

  lemma TailDigits(fraction: string)
    requires IsDigits(fraction)
    ensures OnlyDigits(if fraction == "" then "" else "." + fraction) == fraction
  {
    hide OnlyDigits, IsDigit;
    OnlyDigitsOfDigits(fraction);
    OnlyDigitsConcat(".", fraction);
    CommaIsNoDigit();
  }

  lemma ReadMagnitude(integer: string, fraction: string, degree: nat, forcePlusSign: bool)
    requires IsDigits(integer) && IsDigits(fraction) && |fraction| <= 5
    ensures ReadPlain(MagnitudeText(Amount(integer, fraction, degree), DefaultStyle(forcePlusSign))) ==
            Value(integer) * Ten(5) + Value(fraction) * Ten(5 - |fraction|)
  {
    hide Groups, Join, OnlyDigits, PointAt, Ten, Value, IsDigits, ReadPlain, IsGrouped;
    var g := Join(Groups(integer, 3), ",");
    var tail := if fraction == "" then "" else "." + fraction;
    assert MagnitudeText(Amount(integer, fraction, degree), DefaultStyle(forcePlusSign)) == g + tail;
    GroupedText(integer);
    PointAfter(g, tail);
    TailDigits(fraction);
    ReadAtPoint(g, tail);
  }

  /** Text made of a sign, an amount starting and ending in a digit, and a literal comes apart again. */
  lemma TextComesApart(sign: string, magnitude: string, degree: nat)
    requires sign == "" || sign == "-" || sign == "+"
    requires magnitude != "" && IsDigit(magnitude[0]) && IsDigit(magnitude[|magnitude| - 1])
    requires degree == 0 || degree == 6 || degree == 9 || degree == 12
    ensures var text := sign + magnitude + Literal(degree, DefaultStyle(false));
      && WithoutSign(text) == magnitude + Literal(degree, DefaultStyle(false))
      && DegreeOf(WithoutSign(text)) == degree
      && WithoutLiteral(WithoutSign(text)) == magnitude
  {
    var rest := magnitude + Literal(degree, DefaultStyle(false));
    var text := sign + magnitude + Literal(degree, DefaultStyle(false));
    assert text == sign + rest;
    assert WithoutSign(text) == rest;
    if degree == 0 {
      assert rest == magnitude;
    }
  }

  lemma MagnitudeEnds(integer: string, fraction: string, degree: nat, forcePlusSign: bool)
    requires IsDigits(integer) && IsDigits(fraction) && integer != ""
    ensures var m := MagnitudeText(Amount(integer, fraction, degree), DefaultStyle(forcePlusSign));
      m != "" && IsDigit(m[0]) && IsDigit(m[|m| - 1])
  {
    hide Groups, Join, IsDigit;
    GroupedEnds(integer);
  }

  lemma {:induction false} GroupedEnds(s: string)
    requires IsDigits(s) && s != ""
    ensures var g := Join(Groups(s, 3), ",");
      g != "" && IsDigit(g[0]) && IsDigit(g[|g| - 1])
    decreases |s|
  {
    hide Groups, Join, IsDigit;
    if |s| <= 3 {
      JoinShort(s, 3, ",");
    } else {
      JoinGroupsStep(s, 3, ",");
      GroupedEnds(s[..|s| - 3]);
    }
  }

  lemma Combine(whole: nat, part: nat, decimals: nat, length: nat)
    requires length <= decimals <= 5
    ensures (whole * Ten(decimals) + part * Ten(decimals - length)) * Ten(5 - decimals) ==
            whole * Ten(5) + part * Ten(5 - length)
  {
    hide Ten;
    TenAdd(decimals, 5 - decimals);
    TenAdd(decimals - length, 5 - decimals);
    MulDistributes(whole * Ten(decimals), part * Ten(decimals - length), Ten(5 - decimals));
    MulAssociates(whole, Ten(decimals), Ten(5 - decimals));
    MulAssociates(part, Ten(decimals - length), Ten(5 - decimals));
  }

  /** The text of a short amount spells the amount rounded down to its band, and carries a minus exactly
      when the amount is negative and that number is not zero. */
  lemma ShortTextSpellsFloor(number: BigDecimal, b: Band, forcePlusSign: bool)
    requires BandOf(Over(Magnitude(number), number.precision)) == Some(b)
    ensures b.decimals <= 5
    ensures var text := Format(number, DefaultStyle(forcePlusSign), true);
      var displayed := Displayed(Magnitude(number), number.precision, b);
      && ReadAmount(text) == displayed
      && text != "" && (text[0] == '-' <==> number.value < 0 && displayed != 0)
  {
    hide Ten, Over, BandOf, ShortForm, MagnitudeText, Displayed, Value, IsDigits, ReadPlain, Format;
    var v, p, style := Magnitude(number), number.precision, DefaultStyle(forcePlusSign);
    BandFacts(Over(v, p), b);
    ShortTextParts(number, b, style);
    ShortFormIsFloor(v, p, b);
    ShortFormShape(v, p, b);
    var shown := ShortForm(v, p);
    MagnitudeEnds(shown.integer, shown.fraction, shown.degree, forcePlusSign);
    ReadMagnitude(shown.integer, shown.fraction, shown.degree, forcePlusSign);
    var sign := SignOf(number.value < 0, Displayed(v, p, b), style);
    BandDegree(Over(v, p), b);
    TextComesApart(sign, MagnitudeText(shown, style), b.degree);
    ReadUnits(v, p, b, shown);
  }

  lemma BandDegree(n: nat, b: Band)
    requires BandOf(n) == Some(b)
    ensures b.degree == 0 || b.degree == 6 || b.degree == 9 || b.degree == 12
  {}

  lemma ReadUnits(v: nat, p: nat, b: Band, shown: Shown)
    requires b.decimals <= 5 && ShowsFloor(shown, v, p, b)
    ensures (Value(shown.integer) * Ten(5) + Value(shown.fraction) * Ten(5 - |shown.fraction|)) * Ten(b.degree) ==
            Displayed(v, p, b)
  {
    hide Ten, Over, Value, IsDigits;
    Combine(Value(shown.integer), Value(shown.fraction), b.decimals, |shown.fraction|);
    TenAdd(5 - b.decimals, b.degree);
    MulAssociates(Over(v * Ten(b.decimals), p + b.degree), Ten(5 - b.decimals), Ten(b.degree));
  }

  // ----- Beyond all bands -----

  /** From 1000 trillions on only a bound is shown, and the sign is part of it. */
  lemma HugeText(number: BigDecimal, style: Style)
    requires Over(Magnitude(number), number.precision) >= 1_000_000_000_000_000
    ensures Format(number, style, true) ==
            if number.value < 0 then "< -999" + style.trillions
            else "> " + (if style.forcePlusSign then "+" else "") + "999" + style.trillions
  {
    hide Over, ShortForm;
    ShortFormBand(Magnitude(number), number.precision);
  }

  /** Below it, a band is found. */
  lemma BandFound(n: nat)
    ensures BandOf(n).Some? <==> n < 1_000_000_000_000_000
  {}
}
