/** Parsing token amounts, `number(from:)` of SafeUIKit/SafeUIKit/TokenFormatter.swift, and how it undoes
    printing. */
module TokenParser {
  import opened Outcomes
  import opened Bytes
  import opened DecimalText
  import opened Grouping
  import opened TokenFormatter
  import opened TokenReading

  // ----- Text -----

  /** Foundation's `whitespacesAndNewlines`. */
  predicate IsWhitespace(c: char) {
    || '\t' <= c <= '\r' || c == ' ' || c == '\U{0085}' || c == '\U{00A0}' || c == '\U{1680}'
    || '\U{2000}' <= c <= '\U{200A}' || c == '\U{2028}' || c == '\U{2029}' || c == '\U{202F}'
    || c == '\U{205F}' || c == '\U{3000}'
  }

  function TrimmedStart(s: string): string {
    if s != "" && IsWhitespace(s[0]) then TrimmedStart(s[1..]) else s
  }

  function TrimmedEnd(s: string): string {
    if s != "" && IsWhitespace(s[|s| - 1]) then TrimmedEnd(s[..|s| - 1]) else s
  }

  function WithoutSpaces(s: string): string {
    if s == "" then ""
    else WithoutSpaces(s[..|s| - 1]) + (if s[|s| - 1] == ' ' then "" else [s[|s| - 1]])
  }

  /** The default decimal separators. */
  predicate IsSeparator(c: char) {
    c == '.' || c == ',' || c == '\U{066B}'
  }

  /** One more character in front: a separator starts a new part. */
  function Extended(c: char, parts: seq<string>): (r: seq<string>)
    requires |parts| > 0
    ensures |r| > 0
  {
    if IsSeparator(c) then [""] + parts else [[c] + parts[0]] + parts[1..]
  }

  /** `components(separatedBy:)`: always at least one part. */
  function Split(s: string): (parts: seq<string>)
    ensures |parts| > 0
  {
    if s == "" then [""] else Extended(s[0], Split(s[1..]))
  }

  predicate IsSign(sign: string) {
    sign == "" || sign == "-" || sign == "+"
  }

  function Signed(negative: bool, n: nat): int {
    if negative then 0 - n else n
  }

  /** The library's `BigInt(_:)`: an optional sign and digits; no digits are zero. */
  function ParseInt(s: string): Option<int> {
    if s != "" && s[0] == '-' then
      if IsDigits(s[1..]) then Some(Signed(true, Value(s[1..]))) else None
    else
      var digits := if s != "" && s[0] == '+' then s[1..] else s;
      if IsDigits(digits) then Some(Value(digits)) else None
  }

  /** The library's `power`: a negative exponent gives zero. */
  function PowerOfTen(e: int): nat {
    if e < 0 then 0 else Ten(e)
  }

  // ----- The parser -----

  function Combined(integer: string, fraction: string, precision: nat): Option<BigDecimal> {
    var fractional := TrimZeroes(fraction);
    match (ParseInt(integer), ParseInt(fractional))
    case (Some(i), Some(f)) =>
      Some(BigDecimal(i * Ten(precision) + f * PowerOfTen(precision - |fractional|), precision))
    case _ => None
  }

  function ParseClean(s: string, precision: nat): Option<BigDecimal> {
    if s == "0" then Some(BigDecimal(0, precision))
    else
      var parts := Split(s);
      if |parts| == 1 then Combined(parts[0], "0", precision)
      else Combined(Concat(parts[..|parts| - 1]), parts[|parts| - 1], precision)
  }

  function Number(input: string, precision: nat): Option<BigDecimal> {
    ParseClean(WithoutSpaces(TrimmedEnd(TrimmedStart(input))), precision)
  }

  /** The parser as written, rebuilding its list of parts. */
  method NumberFrom(input: string, precision: nat) returns (r: Option<BigDecimal>)
    ensures r == Number(input, precision)
  {
    hide Split, ParseInt, TrimZeroes, WithoutSpaces, TrimmedEnd, TrimmedStart, Ten;
    var text := WithoutSpaces(TrimmedEnd(TrimmedStart(input)));
    if text == "0" {
      return Some(BigDecimal(0, precision));
    }
    var parts := Split(text);
    ghost var split := parts;
    if |parts| == 1 {
      parts := parts + ["0"];
    }
    if |parts| > 2 {
      parts := [Concat(parts[..|parts| - 1]), parts[|parts| - 1]];
    }
    var integer := parts[0];
    assert |split| == 2 ==> Concat(split[..1]) == split[0] by {
      ConcatOne(split[0]);
      assert split[..1] == [split[0]];
    }
    ghost var fraction := parts[1];
    var fractional := RemovingTrailingZeroes(parts[1]);
    var integerNumber, fractionalNumber := ParseInt(integer), ParseInt(fractional);
    if integerNumber.None? || fractionalNumber.None? {
      return None;
    }
    var value := integerNumber.value * Ten(precision) + fractionalNumber.value * PowerOfTen(precision - |fractional|);
    return Some(BigDecimal(value, precision));
  }

  lemma ConcatOne(s: string)
    ensures Concat([s]) == s
  {
    assert [s][..0] == [];
  }

  // ----- Splitting -----

  predicate Clean(s: string) {
    forall i | 0 <= i < |s| :: !IsSeparator(s[i])
  }

  lemma {:induction false} SplitClean(s: string)
    requires Clean(s)
    ensures Split(s) == [s]
  {
    if s != "" {
      SplitClean(s[1..]);
      assert [s[0]] + s[1..] == s;
    }
  }

  lemma ExtendedConcat(c: char, parts: seq<string>, tail: seq<string>)
    requires |parts| > 0
    ensures Extended(c, parts + tail) == Extended(c, parts) + tail
  {
    hide IsSeparator;
    assert (parts + tail)[1..] == parts[1..] + tail;
  }

  /** A separator always splits. */
  lemma {:induction false} SplitAt(a: string, c: char, b: string)
    requires IsSeparator(c)
    ensures Split(a + [c] + b) == Split(a) + Split(b)
  {
    var s := a + [c] + b;
    if a == "" {
      assert s[1..] == b;
    } else {
      hide Extended;
      assert s[1..] == a[1..] + [c] + b;
      SplitAt(a[1..], c, b);
      ExtendedConcat(a[0], Split(a[1..]), Split(b));
    }
  }

  // ----- Cleaning -----

  lemma {:induction false} WithoutSpacesConcat(a: string, b: string)
    ensures WithoutSpaces(a + b) == WithoutSpaces(a) + WithoutSpaces(b)
  {
    if b == "" {
      assert a + b == a;
    } else {
      WithoutSpacesConcat(a, b[..|b| - 1]);
      assert (a + b)[..|a + b| - 1] == a + b[..|b| - 1];
    }
  }

  predicate NoSpace(s: string) {
    forall i | 0 <= i < |s| :: s[i] != ' '
  }

  lemma {:induction false} WithoutSpacesOfNone(s: string)
    requires NoSpace(s)
    ensures WithoutSpaces(s) == s
  {
    if s != "" {
      WithoutSpacesOfNone(s[..|s| - 1]);
      assert s == s[..|s| - 1] + [s[|s| - 1]];
    }
  }

  lemma {:induction false} GroupsWithoutSpaces(s: string, separator: string)
    requires NoSpace(s) && (separator == "" || separator == " ")
    ensures WithoutSpaces(Join(Groups(s, 3), separator)) == s
    decreases |s|
  {
    hide Groups, Join, WithoutSpaces;
    if |s| <= 3 {
      JoinShort(s, 3, separator);
      WithoutSpacesOfNone(s);
    } else {
      var init, last := s[..|s| - 3], s[|s| - 3..];
      JoinGroupsStep(s, 3, separator);
      GroupsWithoutSpaces(init, separator);
      var g := Join(Groups(init, 3), separator);
      WithoutSpacesConcat(g + separator, last);
      WithoutSpacesConcat(g, separator);
      SeparatorVanishes(separator);
      WithoutSpacesOfNone(last);
      assert s == init + last;
    }
  }

  lemma SeparatorVanishes(separator: string)
    requires separator == "" || separator == " "
    ensures WithoutSpaces(separator) == ""
  {
    assert " "[..0] == "";
  }

  lemma NothingTrimmed(s: string)
    requires s != "" && !IsWhitespace(s[0]) && !IsWhitespace(s[|s| - 1])
    ensures TrimmedEnd(TrimmedStart(s)) == s
  {}

  // ----- Numbers -----

  lemma ParseSigned(sign: string, n: nat)
    requires IsSign(sign)
    ensures ParseInt(sign + Decimal(n)) == Some(Signed(sign == "-", n))
  {
    hide Decimal, Value, IsDigits;
    var digits := Decimal(n);
    ValueOfDecimal(n);
    FirstIsDigit(digits);
    if sign == "" {
      assert sign + digits == digits;
    } else {
      assert (sign + digits)[1..] == digits;
    }
  }

  lemma FirstIsDigit(digits: string)
    requires IsDigits(digits) && digits != ""
    ensures digits[0] != '-' && digits[0] != '+' && digits[|digits| - 1] != ' '
    ensures !IsWhitespace(digits[0]) && !IsWhitespace(digits[|digits| - 1])
  {
    assert IsDigit(digits[0]) && IsDigit(digits[|digits| - 1]);
  }

  lemma ParseDigits(digits: string)
    requires IsDigits(digits)
    ensures ParseInt(digits) == Some(Value(digits))
  {
    hide Value, IsDigit;
    if digits != "" {
      FirstIsDigit(digits);
    }
  }

  lemma DigitsClean(s: string)
    requires IsDigits(s)
    ensures Clean(s) && NoSpace(s)
  {
    forall i | 0 <= i < |s| ensures !IsSeparator(s[i]) && s[i] != ' ' {
      assert IsDigit(s[i]);
    }
  }

  // ----- The printed text, taken apart -----

  /** What parsing makes of a printed whole part and fraction: the fraction is added without the sign. */
  function Reassembled(negative: bool, v: nat, p: nat): int {
    Signed(negative, Over(v, p)) * Ten(p) + Below(v, p)
  }

  lemma CombinedParts(sign: string, v: nat, p: nat)
    requires IsSign(sign)
    ensures Combined(sign + Decimal(Over(v, p)), TrimZeroes(FractionDigits(v, p)), p) ==
            Some(BigDecimal(Reassembled(sign == "-", v, p), p))
  {
    hide Decimal, Value, IsDigits, TrimZeroes, FractionDigits, Ten, Over, Below, ParseInt, IntegerDigits;
    DigitsMeaning(v, p);
    var f := TrimZeroes(FractionDigits(v, p));
    TrimTwice(FractionDigits(v, p));
    TrimmedValue(FractionDigits(v, p));
    ParseSigned(sign, Over(v, p));
    ParseDigits(f);
  }

  lemma NoFraction(integer: string, p: nat)
    ensures Combined(integer, "0", p) == Combined(integer, "", p)
  {
    hide ParseInt;
    assert "0"[..0] == "";
    assert TrimZeroes("0") == TrimZeroes("");
  }

  /** The sign the full format prints. */
  function FullSign(number: BigDecimal, style: Style): string {
    SignOf(number.value < 0, Magnitude(number), style)
  }

  function Tail(fraction: string, style: Style): string {
    if fraction == "" then "" else style.decimalSeparator + fraction
  }

  lemma FullTextParts(number: BigDecimal, style: Style)
    ensures var v, p := Magnitude(number), number.precision;
      Format(number, style, false) ==
      FullSign(number, style) + Join(Groups(Decimal(Over(v, p)), 3), style.thousandSeparator) +
      Tail(TrimZeroes(FractionDigits(v, p)), style)
  {
    hide Decimal, Over, TrimZeroes, FractionDigits, Groups, Join, MagnitudeText, IntegerDigits;
    var v, p := Magnitude(number), number.precision;
    var integer, fraction := Decimal(Over(v, p)), TrimZeroes(FractionDigits(v, p));
    DigitsMeaning(v, p);
    MagnitudeZero(Amount(integer, fraction, 0), style);
    ZeroMagnitude(v, p);
    MagnitudeTail(integer, fraction, style);
    var m := MagnitudeText(Amount(integer, fraction, 0), style);
    assert m + "" == m;
  }

  lemma MagnitudeTail(integer: string, fraction: string, style: Style)
    ensures MagnitudeText(Amount(integer, fraction, 0), style) ==
            Join(Groups(integer, 3), style.thousandSeparator) + Tail(fraction, style)
  {
    hide Groups, Join;
    var grouped := Join(Groups(integer, 3), style.thousandSeparator);
    assert grouped + "" == grouped;
    assert grouped + style.decimalSeparator + fraction == grouped + (style.decimalSeparator + fraction);
  }

  lemma ZeroMagnitude(v: nat, p: nat)
    ensures Decimal(Over(v, p)) == "0" && TrimZeroes(FractionDigits(v, p)) == "" <==> v == 0
  {
    hide Decimal, Over, Ten, Value, IsDigits, TrimZeroes, FractionDigits, IntegerDigits;
    DigitsMeaning(v, p);
    OverBelow(v, p);
    DecimalZero(Over(v, p));
    var digits := FractionDigits(v, p);
    var f := TrimZeroes(digits);
    TrimmedValue(digits);
    EmptyValue();
    if f != "" {
      TrimmedIsPositive(f);
      ProductPositive(Value(f), Ten(|digits| - |f|));
    }
    if v == 0 {
      ZeroOver(p);
    }
  }

  lemma ZeroOver(p: nat)
    ensures Over(0, p) == 0 && Below(0, p) == 0
  {
    DivModUnique(0, Ten(p), 0, 0);
  }

  // ----- Printing then parsing -----

  predicate IsDecimalSeparator(s: string) {
    |s| == 1 && IsSeparator(s[0])
  }

  lemma ParseWhole(sign: string, integer: string, p: nat)
    requires IsSign(sign) && IsDigits(integer) && sign + integer != "0"
    ensures ParseClean(sign + integer, p) == Combined(sign + integer, "", p)
  {
    hide Split, Combined, IsDigits;
    DigitsClean(integer);
    SplitClean(sign + integer);
    NoFraction(sign + integer, p);
  }

  lemma ParseWithFraction(sign: string, integer: string, separator: string, fraction: string, p: nat)
    requires IsSign(sign) && IsDigits(integer) && integer != "" && IsDigits(fraction)
    requires IsDecimalSeparator(separator)
    ensures ParseClean(sign + integer + (separator + fraction), p) == Combined(sign + integer, fraction, p)
  {
    hide Split, Combined, IsDigits, Concat;
    DigitsClean(integer);
    DigitsClean(fraction);
    var a, c := sign + integer, separator[0];
    var s := a + (separator + fraction);
    assert s == a + [c] + fraction;
    SplitAt(a, c, fraction);
    SplitClean(a);
    SplitClean(fraction);
    ConcatOne(a);
    assert [a, fraction][..1] == [a];
    assert |s| > 1;
  }

  lemma SignFree(sign: string)
    requires IsSign(sign)
    ensures WithoutSpaces(sign) == sign
  {
    WithoutSpacesOfNone(sign);
  }

  lemma TailClean(fraction: string, style: Style)
    requires IsDigits(fraction) && IsDecimalSeparator(style.decimalSeparator)
    ensures WithoutSpaces(Tail(fraction, style)) == Tail(fraction, style)
  {
    hide WithoutSpaces, IsDigits;
    DigitsClean(fraction);
    WithoutSpacesOfNone(Tail(fraction, style));
  }

  /** The printed text starts with a sign or a digit and ends in a digit. */
  lemma TextEnds(sign: string, integer: string, fraction: string, style: Style)
    requires IsSign(sign) && IsDigits(integer) && integer != "" && IsDigits(fraction)
    ensures var s := sign + Join(Groups(integer, 3), style.thousandSeparator) + Tail(fraction, style);
      TrimmedEnd(TrimmedStart(s)) == s
  {
    hide Groups, Join, IsDigits, TrimmedEnd, TrimmedStart;
    var g := Join(Groups(integer, 3), style.thousandSeparator);
    GroupEnds(integer, style.thousandSeparator);
    var s := sign + g + Tail(fraction, style);
    FirstIsDigit(integer);
    if fraction != "" {
      FirstIsDigit(fraction);
      assert s[|s| - 1] == fraction[|fraction| - 1];
    } else {
      assert s[|s| - 1] == g[|g| - 1];
    }
    NothingTrimmed(s);
  }

  lemma {:induction false} GroupEnds(s: string, separator: string)
    requires s != ""
    ensures var g := Join(Groups(s, 3), separator);
      g != "" && g[0] == s[0] && g[|g| - 1] == s[|s| - 1]
    decreases |s|
  {
    hide Groups, Join;
    if |s| <= 3 {
      JoinShort(s, 3, separator);
    } else {
      JoinGroupsStep(s, 3, separator);
      GroupEnds(s[..|s| - 3], separator);
    }
  }

  lemma ParsePrinted(sign: string, v: nat, p: nat, style: Style)
    requires IsSign(sign) && (v == 0 ==> sign == "")
    requires IsDecimalSeparator(style.decimalSeparator)
    ensures ParseClean(sign + Decimal(Over(v, p)) + Tail(TrimZeroes(FractionDigits(v, p)), style), p) ==
            Some(BigDecimal(Reassembled(sign == "-", v, p), p))
  {
    hide Decimal, Over, Below, Ten, TrimZeroes, FractionDigits, ParseClean, Combined, IsDigits, IntegerDigits, Value;
    DigitsMeaning(v, p);
    var integer, fraction := Decimal(Over(v, p)), TrimZeroes(FractionDigits(v, p));
    TrimmedValue(FractionDigits(v, p));
    CombinedParts(sign, v, p);
    ZeroMagnitude(v, p);
    if fraction != "" {
      ParseWithFraction(sign, integer, style.decimalSeparator, fraction, p);
    } else {
      assert sign + integer + "" == sign + integer;
      if sign + integer == "0" {
        assert sign == "";
        ParseZero(p);
      } else {
        ParseWhole(sign, integer, p);
      }
    }
  }

  lemma ParseZero(p: nat)
    ensures ParseClean("0", p) == Some(BigDecimal(0, p)) && Reassembled(false, 0, p) == 0
  {
    ZeroOver(p);
  }

  /** Parsing the full format, grouped by nothing or by spaces. */
  lemma ParseFullText(number: BigDecimal, style: Style)
    requires style.thousandSeparator == "" || style.thousandSeparator == " "
    requires IsDecimalSeparator(style.decimalSeparator)
    ensures Number(Format(number, style, false), number.precision) ==
            Some(BigDecimal(Reassembled(number.value < 0, Magnitude(number), number.precision), number.precision))
  {
    hide Decimal, Over, Below, Ten, TrimZeroes, FractionDigits, ParseClean, IsDigits, Groups, Join, Format, Tail,
         WithoutSpaces, TrimmedEnd, TrimmedStart, IntegerDigits, Value, Reassembled;
    var v, p := Magnitude(number), number.precision;
    var sign := FullSign(number, style);
    var integer, fraction := Decimal(Over(v, p)), TrimZeroes(FractionDigits(v, p));
    DigitsMeaning(v, p);
    TrimmedValue(FractionDigits(v, p));
    FullTextParts(number, style);
    TextEnds(sign, integer, fraction, style);
    var g := Join(Groups(integer, 3), style.thousandSeparator);
    WithoutSpacesConcat(sign + g, Tail(fraction, style));
    WithoutSpacesConcat(sign, g);
    SignFree(sign);
    DigitsClean(integer);
    GroupsWithoutSpaces(integer, style.thousandSeparator);
    TailClean(fraction, style);
    ParsePrinted(sign, v, p, style);
    assert v == 0 ==> sign == "";
    assert v > 0 ==> (sign == "-" <==> number.value < 0);
  }

  lemma ReassembledIff(value: int, v: nat, p: nat)
    requires v == if value < 0 then -value else value
    ensures Reassembled(value < 0, v, p) == value <==> value >= 0 || Below(v, p) == 0
  {
    hide Ten, Over, Below;
    OverBelow(v, p);
  }

  /** Printing in full and parsing is the identity exactly for amounts that are not negative or have no
      fraction. */
  lemma PrintThenParse(number: BigDecimal, style: Style)
    requires style.thousandSeparator == "" || style.thousandSeparator == " "
    requires IsDecimalSeparator(style.decimalSeparator)
    ensures Number(Format(number, style, false), number.precision) == Some(number) <==>
            number.value >= 0 || Below(Magnitude(number), number.precision) == 0
  {
    hide Number, Format, Reassembled, Below;
    ParseFullText(number, style);
    ReassembledIff(number.value, Magnitude(number), number.precision);
  }

  /** Minus one half comes back as plus one half. */
  lemma NegativeFractionChangesSign()
    ensures Number(Format(BigDecimal(-5, 1), DefaultStyle(false).(thousandSeparator := ""), false), 1) ==
            Some(BigDecimal(5, 1))
  {
    hide Number, Format, Over, Below;
    var number := BigDecimal(-5, 1);
    ParseFullText(number, DefaultStyle(false).(thousandSeparator := ""));
    assert Over(5, 1) == 0 && Below(5, 1) == 5 by { DivModUnique(5, Ten(1), 0, 5); FiveTenths(); }
  }

  lemma FiveTenths()
    ensures Over(5, 1) == 0 && Below(5, 1) == 5
  {
    SmallTens();
  }

  // ----- Grouping by a decimal separator -----

  lemma ConcatSnoc(parts: seq<string>, s: string)
    ensures Concat(parts + [s]) == Concat(parts) + s
  {
    assert (parts + [s])[..|parts|] == parts;
  }

  /** A grouping character that is also a decimal separator splits the number into its groups. */
  lemma {:induction false} SplitGrouped(sign: string, s: string, c: char)
    requires IsSign(sign) && IsDigits(s) && IsSeparator(c)
    ensures var parts := Split(sign + Join(Groups(s, 3), [c]));
      && Concat(parts) == sign + s
      && (|s| <= 3 ==> parts == [sign + s])
      && (|s| > 3 ==> |parts| > 1 && parts[|parts| - 1] == s[|s| - 3..] &&
                      Concat(parts[..|parts| - 1]) == sign + s[..|s| - 3])
    decreases |s|
  {
    hide Groups, Join, Split, Concat, IsDigits;
    if |s| <= 3 {
      JoinShort(s, 3, [c]);
      DigitsClean(s);
      SplitClean(sign + s);
      ConcatOne(sign + s);
    } else {
      var init, last := s[..|s| - 3], s[|s| - 3..];
      DigitsSplit(s, |s| - 3);
      var x := sign + Join(Groups(init, 3), [c]);
      JoinGroupsStep(s, 3, [c]);
      assert sign + Join(Groups(s, 3), [c]) == x + [c] + last;
      SplitGrouped(sign, init, c);
      SplitAt(x, c, last);
      DigitsClean(last);
      SplitClean(last);
      var parts := Split(x) + [last];
      assert parts[..|parts| - 1] == Split(x);
      ConcatSnoc(Split(x), last);
      assert sign + s == sign + init + last;
    }
  }

  lemma DigitsSplit(s: string, k: nat)
    requires IsDigits(s) && k <= |s|
    ensures IsDigits(s[..k]) && IsDigits(s[k..])
  {}

  /** The whole part read from the text: all the groups, or all but the last when there is no fraction. */
  lemma ParseGrouped(sign: string, s: string, fraction: string, c: char, d: char, p: nat)
    requires IsSign(sign) && IsDigits(s) && s != "" && IsDigits(fraction) && IsSeparator(c) && IsSeparator(d)
    requires fraction == "" ==> sign + s != "0"
    ensures var text := sign + Join(Groups(s, 3), [c]) + (if fraction == "" then "" else [d] + fraction);
      ParseClean(text, p) ==
        if fraction != "" then Combined(sign + s, fraction, p)
        else if |s| <= 3 then Combined(sign + s, "", p)
        else Combined(sign + s[..|s| - 3], s[|s| - 3..], p)
  {
    hide Groups, Join, Split, Concat, IsDigits, Combined;
    var g := sign + Join(Groups(s, 3), [c]);
    SplitGrouped(sign, s, c);
    GroupedLength(s, [c]);
    if fraction != "" {
      var text := g + ([d] + fraction);
      assert text == g + [d] + fraction;
      SplitAt(g, d, fraction);
      DigitsClean(fraction);
      SplitClean(fraction);
      var parts := Split(g) + [fraction];
      assert parts[..|parts| - 1] == Split(g);
    } else {
      assert g + "" == g;
      NoFraction(sign + s, p);
    }
  }

  lemma GroupedLength(s: string, separator: string)
    ensures |Join(Groups(s, 3), separator)| >= |s|
    ensures |s| <= 3 ==> Join(Groups(s, 3), separator) == s
  {
    hide Groups, Join;
    JoinNotShorter(s, 3, separator);
    if |s| <= 3 { JoinShort(s, 3, separator); }
  }

  /** Misreading the last group as a fraction gives a number about a thousand times too small. */
  lemma MisreadGroups(negative: bool, n: nat, f: nat, p: nat)
    requires n >= 1000 && f < Ten(p)
    ensures Signed(negative, Over(n, 3)) * Ten(p) + f != Signed(negative, n) * Ten(p)
  {
    SmallTens();
    var q, t := Over(n, 3), Ten(p);
    OverBelow(n, 3);
    assert q + 1 <= n;
    MulMonotone(q + 1, n, t);
    MulDistributes(q, 1, t);
  }

  lemma FractionOfGroup(f: string, p: nat)
    requires IsDigits(f)
    ensures Value(f) * PowerOfTen(p - |f|) < Ten(p)
  {
    hide Value, Ten, IsDigits;
    if |f| <= p {
      ValueBound(f);
      TenAdd(|f|, p - |f|);
      MulMonotone(Value(f) + 1, Ten(|f|), Ten(p - |f|));
      MulDistributes(Value(f), 1, Ten(p - |f|));
    }
  }

  lemma CombinedMisread(sign: string, n: nat, p: nat)
    requires IsSign(sign) && n >= 1000
    ensures |Decimal(n)| > 3
    ensures var s := Decimal(n);
      Combined(sign + s[..|s| - 3], s[|s| - 3..], p) != Some(BigDecimal(Signed(sign == "-", n) * Ten(p), p))
  {
    hide Decimal, Over, Ten, Value, IsDigits, TrimZeroes, ParseInt;
    SmallTens();
    DigitCount(n, 3);
    var s := Decimal(n);
    DecimalPrefix(n, 3);
    DigitsSplit(s, |s| - 3);
    ParseSigned(sign, Over(n, 3));
    var f := TrimZeroes(s[|s| - 3..]);
    TrimmedValue(s[|s| - 3..]);
    ParseDigits(f);
    FractionOfGroup(f, p);
    MisreadGroups(sign == "-", n, Value(f) * PowerOfTen(p - |f|), p);
  }

  lemma {:induction false} GroupedNoSpace(s: string, c: char)
    requires NoSpace(s) && c != ' '
    ensures NoSpace(Join(Groups(s, 3), [c]))
    decreases |s|
  {
    hide Groups, Join;
    if |s| <= 3 {
      JoinShort(s, 3, [c]);
    } else {
      JoinGroupsStep(s, 3, [c]);
      GroupedNoSpace(s[..|s| - 3], c);
    }
  }

  /** The text reaches the splitting step unchanged. */
  lemma NumberOfGrouped(number: BigDecimal, style: Style)
    requires |style.thousandSeparator| == 1 && style.thousandSeparator[0] != ' '
    requires IsDecimalSeparator(style.decimalSeparator)
    ensures var v, p := Magnitude(number), number.precision;
      Number(Format(number, style, false), p) ==
      ParseClean(FullSign(number, style) + Join(Groups(Decimal(Over(v, p)), 3), style.thousandSeparator) +
                 Tail(TrimZeroes(FractionDigits(v, p)), style), p)
  {
    hide Decimal, Over, Ten, TrimZeroes, FractionDigits, ParseClean, IsDigits, Groups, Join, Format, IntegerDigits,
         Value, TrimmedStart, TrimmedEnd, WithoutSpaces;
    var v, p := Magnitude(number), number.precision;
    var sign := FullSign(number, style);
    var s, fraction := Decimal(Over(v, p)), TrimZeroes(FractionDigits(v, p));
    DigitsMeaning(v, p);
    TrimmedValue(FractionDigits(v, p));
    FullTextParts(number, style);
    TextEnds(sign, s, fraction, style);
    DigitsClean(s);
    DigitsClean(fraction);
    GroupedNoSpace(s, style.thousandSeparator[0]);
    assert style.thousandSeparator == [style.thousandSeparator[0]];
    var text := sign + Join(Groups(s, 3), style.thousandSeparator) + Tail(fraction, style);
    assert NoSpace(text);
    WithoutSpacesOfNone(text);
  }

  lemma FractionEmptyIff(v: nat, p: nat)
    ensures TrimZeroes(FractionDigits(v, p)) == "" <==> Below(v, p) == 0
  {
    hide Over, Below, Ten, Value, IsDigits, TrimZeroes, FractionDigits, IntegerDigits;
    DigitsMeaning(v, p);
    var digits := FractionDigits(v, p);
    var f := TrimZeroes(digits);
    TrimmedValue(digits);
    EmptyValue();
    if f != "" {
      TrimmedIsPositive(f);
      ProductPositive(Value(f), Ten(|digits| - |f|));
    }
  }

  lemma GroupedZero(sign: string, style: Style, p: nat)
    requires sign == ""
    ensures ParseClean(sign + Join(Groups("0", 3), style.thousandSeparator) + Tail("", style), p) ==
            Some(BigDecimal(0, p))
  {
    hide Groups, Join;
    JoinShort("0", 3, style.thousandSeparator);
    assert "" + "0" + "" == "0";
  }

  /** Grouping by a decimal separator, such as the default comma: printing and parsing is the identity
      exactly when there is a fraction or nothing to group, and the fraction is not lost to the sign. */
  lemma GroupedPrintThenParse(number: BigDecimal, style: Style)
    requires IsDecimalSeparator(style.thousandSeparator) && IsDecimalSeparator(style.decimalSeparator)
    ensures var v, p := Magnitude(number), number.precision;
      Number(Format(number, style, false), p) == Some(number) <==>
      && (Below(v, p) != 0 || Over(v, p) < 1000)
      && (number.value >= 0 || Below(v, p) == 0)
  {
    hide Decimal, Over, Below, Ten, TrimZeroes, FractionDigits, ParseClean, Combined, IsDigits, Groups, Join, Format,
         IntegerDigits, Value, Number;
    var v, p := Magnitude(number), number.precision;
    var sign := FullSign(number, style);
    var s, fraction := Decimal(Over(v, p)), TrimZeroes(FractionDigits(v, p));
    var c, d := style.thousandSeparator[0], style.decimalSeparator[0];
    assert style.thousandSeparator == [c] && style.decimalSeparator == [d];
    NumberOfGrouped(number, style);
    FractionEmptyIff(v, p);
    ZeroMagnitude(v, p);
    if v == 0 {
      ZeroOver(p);
      GroupedZero(sign, style, p);
    } else {
      DigitsMeaning(v, p);
      TrimmedValue(FractionDigits(v, p));
      ParseGrouped(sign, s, fraction, c, d, p);
      CombinedParts(sign, v, p);
      ReassembledIff(number.value, v, p);
      DigitCount(Over(v, p), 3);
      SmallTens();
      OverBelow(v, p);
      if fraction == "" && |s| > 3 {
        CombinedMisread(sign, Over(v, p), p);
      }
    }
  }

  /** One thousand prints as `1,000`, which parses as one. */
  lemma ThousandReadsAsOne()
    ensures Number(Format(BigDecimal(1000, 0), DefaultStyle(false), false), 0) == Some(BigDecimal(1, 0))
  {
    hide Decimal, Over, Below, Ten, TrimZeroes, FractionDigits, ParseClean, Combined, IsDigits, Groups, Join, Format,
         IntegerDigits, Value, Number;
    var number, style := BigDecimal(1000, 0), DefaultStyle(false);
    NumberOfGrouped(number, style);
    FractionEmptyIff(1000, 0);
    ThousandDigits();
    ParseGrouped("", "1000", "", ',', '.', 0);
    assert "" + "1000" == "1000" && "" + "1000"[..1] == "1";
    OneAndZeroes();
  }

  lemma ThousandDigits()
    ensures Over(1000, 0) == 1000 && Below(1000, 0) == 0
    ensures Decimal(1000) == "1000" && IsDigits("1000") && IsDigits("")
  {
    assert Ten(0) == 1;
    DivModUnique(1000, 1, 1000, 0);
    assert Decimal(1) == "1" && Decimal(10) == "10" && Decimal(100) == "100";
  }

  lemma OneAndZeroes()
    ensures Combined("1", "000", 0) == Some(BigDecimal(1, 0))
  {
    TrimThenPad("000");
    assert "000"[..2] == "00" && "00"[..1] == "0" && "0"[..0] == "";
    assert TrimZeroes("00") == "" && TrimZeroes("000") == "";
    assert "1"[..0] == "" && Value("1") == 1 && Value("") == 0;
    assert ParseInt("1") == Some(1) && ParseInt("") == Some(0);
  }

  // ----- Grouping by any other character -----

  /** A grouping character the parser does not know, such as an apostrophe or a narrow space. */
  predicate IsForeign(c: char) {
    !IsDigit(c) && c != '-' && c != '+' && c != ' ' && !IsSeparator(c)
  }

  lemma {:induction false} GroupedClean(s: string, c: char)
    requires Clean(s) && !IsSeparator(c)
    ensures Clean(Join(Groups(s, 3), [c]))
    decreases |s|
  {
    hide Groups, Join, IsSeparator;
    if |s| <= 3 {
      JoinShort(s, 3, [c]);
    } else {
      JoinGroupsStep(s, 3, [c]);
      GroupedClean(s[..|s| - 3], c);
    }
  }

  /** A whole part with such a character in it is no number. */
  lemma ForeignIsNoNumber(sign: string, s: string, c: char)
    requires IsSign(sign) && IsDigits(s) && |s| > 3 && IsForeign(c)
    ensures ParseInt(sign + Join(Groups(s, 3), [c])) == None
  {
    hide Groups, Join, Value, IsSeparator;
    var g := Join(Groups(s, 3), [c]);
    JoinGroupsStep(s, 3, [c]);
    GroupEnds(s, [c]);
    FirstIsDigit(s);
    var k := |g| - 4;
    assert g[k] == c && !IsDigits(g);
    var text := sign + g;
    if sign == "" {
      assert text == g;
    } else {
      assert text[1..] == g;
    }
  }

  lemma ParseForeign(sign: string, s: string, fraction: string, c: char, d: char, p: nat)
    requires IsSign(sign) && IsDigits(s) && |s| > 3 && IsDigits(fraction) && IsForeign(c) && IsSeparator(d)
    ensures var text := sign + Join(Groups(s, 3), [c]) + (if fraction == "" then "" else [d] + fraction);
      ParseClean(text, p) == None
  {
    hide Groups, Join, Split, Concat, IsDigits, ParseInt, TrimZeroes;
    var g := sign + Join(Groups(s, 3), [c]);
    ForeignIsNoNumber(sign, s, c);
    DigitsClean(s);
    GroupedClean(s, c);
    SplitClean(g);
    JoinNotShorter(s, 3, [c]);
    if fraction != "" {
      assert g + ([d] + fraction) == g + [d] + fraction;
      SplitAt(g, d, fraction);
      DigitsClean(fraction);
      SplitClean(fraction);
      ConcatOne(g);
      assert [g, fraction][..1] == [g];
    } else {
      assert g + "" == g;
    }
  }

  /** Grouped by a character that is no digit, sign, space or decimal separator: print then parse is the
      identity exactly when there is nothing to group and the fraction is not lost to the sign, and from 1000
      on nothing is read at all. */
  lemma ForeignPrintThenParse(number: BigDecimal, style: Style)
    requires |style.thousandSeparator| == 1 && IsForeign(style.thousandSeparator[0])
    requires IsDecimalSeparator(style.decimalSeparator)
    ensures var v, p := Magnitude(number), number.precision;
      && (Number(Format(number, style, false), p) == Some(number) <==>
            Over(v, p) < 1000 && (number.value >= 0 || Below(v, p) == 0))
      && (Over(v, p) >= 1000 ==> Number(Format(number, style, false), p) == None)
  {
    hide Decimal, Over, Below, Ten, TrimZeroes, FractionDigits, ParseClean, IsDigits, Groups, Join, Format,
         IntegerDigits, Value, Number, Reassembled;
    var v, p := Magnitude(number), number.precision;
    var sign := FullSign(number, style);
    var s, fraction := Decimal(Over(v, p)), TrimZeroes(FractionDigits(v, p));
    var c, d := style.thousandSeparator[0], style.decimalSeparator[0];
    assert style.thousandSeparator == [c] && style.decimalSeparator == [d];
    NumberOfGrouped(number, style);
    DigitsMeaning(v, p);
    TrimmedValue(FractionDigits(v, p));
    DigitCount(Over(v, p), 3);
    SmallTens();
    if |s| > 3 {
      ParseForeign(sign, s, fraction, c, d, p);
    } else {
      JoinShort(s, 3, style.thousandSeparator);
      assert v == 0 ==> sign == "";
      assert v > 0 ==> (sign == "-" <==> number.value < 0);
      ParsePrinted(sign, v, p, style);
      ReassembledIff(number.value, v, p);
    }
  }

  /** One thousand grouped by an apostrophe is read as no number. */
  lemma ApostropheIsNotRead()
    ensures Number(Format(BigDecimal(1000, 0), DefaultStyle(false).(thousandSeparator := "'"), false), 0) == None
  {
    hide Number, Format, Over;
    ThousandDigits();
    ForeignPrintThenParse(BigDecimal(1000, 0), DefaultStyle(false).(thousandSeparator := "'"));
  }
}
