/** Parsing what a person types, `number(from:)` of SafeUIKit/SafeUIKit/TokenFormatter.swift on any text. */
module TypedAmounts {
  import opened Outcomes
  import opened Bytes
  import opened DecimalText
  import opened Grouping
  import opened TokenFormatter
  import opened TokenReading
  import opened TokenParser

  // ----- Cleaning -----

  function WithoutWhitespace(s: string): string {
    if s == "" then ""
    else WithoutWhitespace(s[..|s| - 1]) + (if IsWhitespace(s[|s| - 1]) then "" else [s[|s| - 1]])
  }

  predicate AllWhitespace(s: string) {
    forall i | 0 <= i < |s| :: IsWhitespace(s[i])
  }

  /** Plain spaces are the only whitespace. */
  predicate OnlyPlainSpaces(s: string) {
    forall i | 0 <= i < |s| :: IsWhitespace(s[i]) ==> s[i] == ' '
  }

  lemma {:induction false} WithoutWhitespaceConcat(a: string, b: string)
    ensures WithoutWhitespace(a + b) == WithoutWhitespace(a) + WithoutWhitespace(b)
  {
    if b == "" {
      assert a + b == a;
    } else {
      WithoutWhitespaceConcat(a, b[..|b| - 1]);
      assert (a + b)[..|a + b| - 1] == a + b[..|b| - 1];
    }
  }

  lemma {:induction false} TrimmedKeepsContents(s: string)
    ensures WithoutWhitespace(TrimmedStart(s)) == WithoutWhitespace(s)
    ensures WithoutWhitespace(TrimmedEnd(s)) == WithoutWhitespace(s)
    ensures TrimmedEnd(s) <= s
    decreases |s|
  {
    hide IsWhitespace;
    if s != "" && IsWhitespace(s[0]) {
      TrimmedKeepsContents(s[1..]);
      assert s == [s[0]] + s[1..];
      WithoutWhitespaceConcat([s[0]], s[1..]);
      OneWhitespace(s[0]);
    }
    if s != "" && IsWhitespace(s[|s| - 1]) {
      TrimmedKeepsContents(s[..|s| - 1]);
    }
  }

  lemma OneWhitespace(c: char)
    requires IsWhitespace(c)
    ensures WithoutWhitespace([c]) == ""
  {
    assert [c][..0] == "";
  }

  lemma {:induction false} TrimmedInside(s: string, after: string)
    requires !AllWhitespace(s)
    ensures TrimmedStart(s + after) == TrimmedStart(s) + after
  {
    hide IsWhitespace;
    assert (s + after)[0] == s[0];
    if IsWhitespace(s[0]) {
      assert (s + after)[1..] == s[1..] + after;
      TrimmedInside(s[1..], after);
    }
  }

  lemma {:induction false} TrimmedStartIsSuffix(s: string)
    ensures |TrimmedStart(s)| <= |s| && TrimmedStart(s) == s[|s| - |TrimmedStart(s)|..]
  {
    hide IsWhitespace;
    if s != "" && IsWhitespace(s[0]) {
      TrimmedStartIsSuffix(s[1..]);
    }
  }

  lemma {:induction false} TrimmedBefore(before: string, s: string)
    requires AllWhitespace(before)
    ensures TrimmedStart(before + s) == TrimmedStart(s)
  {
    hide IsWhitespace;
    if before != "" {
      assert (before + s)[0] == before[0] && (before + s)[1..] == before[1..] + s;
      TrimmedBefore(before[1..], s);
    } else {
      assert before + s == s;
    }
  }

  lemma {:induction false} TrimmedAfter(s: string, after: string)
    requires AllWhitespace(after)
    ensures TrimmedEnd(s + after) == TrimmedEnd(s)
  {
    hide IsWhitespace;
    if after != "" {
      var n := |after| - 1;
      assert (s + after)[|s + after| - 1] == after[n] && (s + after)[..|s + after| - 1] == s + after[..n];
      TrimmedAfter(s, after[..n]);
    } else {
      assert s + after == s;
    }
  }

  lemma {:induction false} PlainSpacesGo(s: string)
    requires OnlyPlainSpaces(s)
    ensures WithoutSpaces(s) == WithoutWhitespace(s)
  {
    if s != "" {
      PlainSpacesGo(s[..|s| - 1]);
    }
  }

  /** Whitespace around a text and plain spaces inside it do not matter. */
  lemma CleanedText(before: string, core: string, after: string)
    requires AllWhitespace(before) && AllWhitespace(after) && OnlyPlainSpaces(core)
    ensures WithoutSpaces(TrimmedEnd(TrimmedStart(before + core + after))) == WithoutWhitespace(core)
  {
    hide IsWhitespace, WithoutSpaces, WithoutWhitespace, TrimmedStart, TrimmedEnd;
    assert before + core + after == before + (core + after);
    TrimmedBefore(before, core + after);
    if AllWhitespace(core) {
      var all := core + after;
      TrimmedBefore(all, "");
      assert all + "" == all;
      NothingLeft();
      TrimmedKeepsContents(core);
      TrimmedBefore(core, "");
      assert core + "" == core;
    } else {
      TrimmedInside(core, after);
      var kept := TrimmedStart(core);
      TrimmedStartIsSuffix(core);
      TrimmedAfter(kept, after);
      TrimmedKeepsContents(core);
      TrimmedKeepsContents(kept);
      PlainSpacesGo(TrimmedEnd(kept));
    }
  }

  lemma NothingLeft()
    ensures TrimmedStart("") == "" && TrimmedEnd("") == "" && WithoutSpaces("") == "" && WithoutWhitespace("") == ""
  {}

  /** Digits, decimal separators and spaces. */
  predicate IsTypedWhole(s: string) {
    forall i | 0 <= i < |s| :: IsDigit(s[i]) || IsSeparator(s[i]) || s[i] == ' '
  }

  /** Digits and spaces. */
  predicate IsTypedDigits(s: string) {
    forall i | 0 <= i < |s| :: IsDigit(s[i]) || s[i] == ' '
  }

  lemma TypedWholeCleaned(s: string)
    requires IsTypedWhole(s)
    ensures OnlyPlainSpaces(s)
    ensures IsDigitsAndSeparators(WithoutWhitespace(s))
    ensures OnlyDigits(WithoutWhitespace(s)) == OnlyDigits(s)
    ensures IsTypedDigits(s) ==> WithoutWhitespace(s) == OnlyDigits(s)
  {
    forall i | 0 <= i < |s| ensures IsWhitespace(s[i]) <==> s[i] == ' ' {
      LastTyped(s[i]);
    }
    TypedDigitsKept(s);
    if IsTypedDigits(s) {
      TypedDigitsAreDigits(s);
    }
  }

  lemma {:induction false} TypedDigitsKept(s: string)
    requires IsTypedWhole(s)
    ensures IsDigitsAndSeparators(WithoutWhitespace(s))
    ensures OnlyDigits(WithoutWhitespace(s)) == OnlyDigits(s)
  {
    hide IsDigit, IsSeparator, IsWhitespace;
    if s != "" {
      var init, last := s[..|s| - 1], s[|s| - 1];
      TypedDigitsKept(init);
      LastTyped(last);
      var w := WithoutWhitespace(init);
      if last == ' ' {
        assert w + "" == w && OnlyDigits(init) + "" == OnlyDigits(init);
      } else {
        assert (w + [last])[..|w|] == w;
      }
    }
  }

  lemma {:induction false} TypedDigitsAreDigits(s: string)
    requires IsTypedDigits(s)
    ensures WithoutWhitespace(s) == OnlyDigits(s)
  {
    hide IsDigit, IsWhitespace;
    if s != "" {
      TypedDigitsAreDigits(s[..|s| - 1]);
      LastTyped(s[|s| - 1]);
    }
  }

  lemma LastTyped(c: char)
    requires IsDigit(c) || IsSeparator(c) || c == ' '
    ensures IsWhitespace(c) <==> c == ' '
    ensures IsDigit(c) ==> c != ' '
  {}

  predicate IsDigitsAndSeparators(s: string) {
    forall i | 0 <= i < |s| :: IsDigit(s[i]) || IsSeparator(s[i])
  }

  lemma ExtendedKeepsContents(c: char, parts: seq<string>)
    requires |parts| > 0
    ensures Concat(Extended(c, parts)) == (if IsSeparator(c) then "" else [c]) + Concat(parts)
  {
    hide *;
    ExtendedIs(c, parts);
    if IsSeparator(c) {
      ConcatCons("", parts);
    } else {
      ConcatFirst(c, parts[0], parts[1..], parts);
    }
  }

  lemma ConcatFirst(c: char, first: string, rest: seq<string>, parts: seq<string>)
    requires parts == [first] + rest
    ensures Concat([[c] + first] + rest) == [c] + Concat(parts)
  {
    hide *;
    ConcatCons(first, rest);
    ConcatCons([c] + first, rest);
    Associates([c], first, Concat(rest));
  }

  lemma Associates(a: string, b: string, c: string)
    ensures (a + b) + c == a + (b + c)
  {}

  lemma ExtendedIs(c: char, parts: seq<string>)
    requires |parts| > 0
    ensures Extended(c, parts) == if IsSeparator(c) then [""] + parts else [[c] + parts[0]] + parts[1..]
  {}

  lemma {:induction false} ConcatCons(s: string, parts: seq<string>)
    ensures Concat([s] + parts) == s + Concat(parts)
  {
    if parts == [] {
      assert [s] + parts == [s];
      ConcatOne(s);
    } else {
      var n := |parts| - 1;
      ConcatCons(s, parts[..n]);
      assert ([s] + parts)[..n + 1] == [s] + parts[..n];
      Associates(s, Concat(parts[..n]), parts[n]);
    }
  }

  /** The parts between the separators, put together again, are the text without them. */
  lemma {:induction false} PartsOfDigits(s: string)
    requires IsDigitsAndSeparators(s)
    ensures Concat(Split(s)) == OnlyDigits(s)
  {
    hide Extended, IsDigit, IsSeparator;
    if s == "" {
      ConcatOne("");
    } else {
      PartsOfDigits(s[1..]);
      ExtendedKeepsContents(s[0], Split(s[1..]));
      assert s == [s[0]] + s[1..];
      OnlyDigitsConcat([s[0]], s[1..]);
      DigitOrSeparator(s[0]);
    }
  }

  lemma DigitOrSeparator(c: char)
    requires IsDigit(c) || IsSeparator(c)
    ensures OnlyDigits([c]) == if IsSeparator(c) then "" else [c]
  {
    assert [c][..0] == "";
  }

  lemma PartsWithSign(sign: string, s: string)
    requires IsSign(sign) && IsDigitsAndSeparators(s)
    ensures Concat(Split(sign + s)) == sign + OnlyDigits(s)
  {
    hide Extended, OnlyDigits, IsDigitsAndSeparators;
    PartsOfDigits(s);
    if sign == "" {
      assert sign + s == s;
    } else {
      assert (sign + s)[1..] == s;
      ExtendedKeepsContents(sign[0], Split(s));
      assert !IsSeparator(sign[0]);
    }
  }

  lemma ParseSignedDigits(sign: string, digits: string)
    requires IsSign(sign) && IsDigits(digits)
    ensures ParseInt(sign + digits) == Some(Signed(sign == "-", Value(digits)))
  {
    hide Value, IsDigit;
    if digits != "" {
      FirstIsDigit(digits);
    }
    if sign == "" {
      assert sign + digits == digits;
    } else {
      assert (sign + digits)[1..] == digits;
    }
  }

  /** What combining a signed whole part and a fraction means. */
  lemma CombinedMeaning(sign: string, whole: string, part: string, p: nat)
    requires IsSign(sign) && IsDigits(whole) && IsDigits(part)
    ensures IsDigits(TrimZeroes(part))
    ensures var r := Combined(sign + whole, part, p);
      var w := Signed(sign == "-", Value(whole));
      && r.Some? && r.value.precision == p
      && (|TrimZeroes(part)| <= p ==>
            r.value.value * Ten(|part|) == w * Ten(p + |part|) + Value(part) * Ten(p))
      && (|TrimZeroes(part)| > p ==> r.value.value == w * Ten(p))
  {
    hide Value, Ten, IsDigits, TrimZeroes, ParseInt;
    var f, w := TrimZeroes(part), Signed(sign == "-", Value(whole));
    TrimmedValue(part);
    TrimmedLength(part);
    ParseSignedDigits(sign, whole);
    ParseDigits(f);
    if |f| <= p {
      ScaledTens(w, Value(f), p, |part|, |f|);
    }
  }

  lemma TrimmedLength(s: string)
    ensures |TrimZeroes(s)| <= |s|
  {}

  lemma ScaledTens(w: int, f: nat, p: nat, n: nat, k: nat)
    requires k <= p && k <= n
    ensures (w * Ten(p) + f * Ten(p - k)) * Ten(n) == w * Ten(p + n) + (f * Ten(n - k)) * Ten(p)
  {
    hide Ten;
    TenAdd(p, n);
    TenAdd(p - k, k);
    TenAdd(k, n - k);
    Scaled(w, f, Ten(p), Ten(p - k), Ten(n), Ten(k), Ten(n - k));
  }

  /** With p = r * g and n = g * t. */
  lemma Scaled(w: int, f: nat, p: nat, r: nat, n: nat, g: nat, t: nat)
    requires p == r * g && n == g * t
    ensures (w * p + f * r) * n == w * (p * n) + (f * t) * p
  {
    MulDistributes(w * p, f * r, n);
    MulAssociates(w, p, n);
    assert (f * r) * n == (f * t) * p by {
      MulAssociates(f, r, n);
      MulAssociates(f, t, p);
      MulAssociates(r, g, t);
      assert r * (g * t) == t * (r * g);
    }
  }

  /** Any typed number with a decimal separator, whitespace around it, spaces and further separators inside: the
      value is the signed whole part plus the unsigned fraction, and a fraction with too many digits is dropped. */
  lemma TypedNumber(before: string, sign: string, whole: string, d: char, part: string, after: string, p: nat)
    requires AllWhitespace(before) && AllWhitespace(after)
    requires IsSign(sign) && IsTypedWhole(whole) && IsSeparator(d) && IsTypedDigits(part)
    ensures var r := Number(before + (sign + whole + [d] + part) + after, p);
      var w, f := Signed(sign == "-", Value(OnlyDigits(whole))), OnlyDigits(part);
      && r.Some? && r.value.precision == p
      && (|TrimZeroes(f)| <= p ==> r.value.value * Ten(|f|) == w * Ten(p + |f|) + Value(f) * Ten(p))
      && (|TrimZeroes(f)| > p ==> r.value.value == w * Ten(p))
  {
    hide *;
    var core := sign + whole + [d] + part;
    var w, f := WithoutWhitespace(whole), OnlyDigits(part);
    PartIsWhole(part);
    TypedWholeCleaned(whole);
    TypedWholeCleaned(part);
    CoreCleaned(sign, whole, d, part);
    CleanedText(before, core, after);
    NumberIs(before + core + after, p);
    ParseTyped(sign, w, d, f, p);
    CombinedMeaning(sign, OnlyDigits(whole), f, p);
  }

  lemma NumberIs(input: string, p: nat)
    ensures Number(input, p) == ParseClean(WithoutSpaces(TrimmedEnd(TrimmedStart(input))), p)
  {}

  lemma PartIsWhole(part: string)
    requires IsTypedDigits(part)
    ensures IsTypedWhole(part)
  {}

  lemma CoreCleaned(sign: string, whole: string, d: char, part: string)
    requires IsSign(sign) && OnlyPlainSpaces(whole) && IsSeparator(d) && OnlyPlainSpaces(part)
    ensures OnlyPlainSpaces(sign + whole + [d] + part)
    ensures WithoutWhitespace(sign + whole + [d] + part) ==
            sign + WithoutWhitespace(whole) + [d] + WithoutWhitespace(part)
  {
    hide WithoutWhitespace;
    SignCleaned(sign);
    SeparatorCleaned(d);
    WithoutWhitespaceConcat(sign + whole + [d], part);
    WithoutWhitespaceConcat(sign + whole, [d]);
    WithoutWhitespaceConcat(sign, whole);
  }

  lemma SignCleaned(sign: string)
    requires IsSign(sign)
    ensures WithoutWhitespace(sign) == sign && OnlyPlainSpaces(sign)
  {
    if sign != "" {
      assert sign[..0] == "";
    }
  }

  lemma SeparatorCleaned(d: char)
    requires IsSeparator(d)
    ensures WithoutWhitespace([d]) == [d] && !IsWhitespace(d)
  {
    assert [d][..0] == "";
  }

  lemma ParseTyped(sign: string, whole: string, d: char, part: string, p: nat)
    requires IsSign(sign) && IsDigitsAndSeparators(whole) && IsSeparator(d) && IsDigits(part)
    ensures ParseClean(sign + whole + [d] + part, p) == Combined(sign + OnlyDigits(whole), part, p)
  {
    hide Split, Concat, Combined, IsDigits, IsDigitsAndSeparators, OnlyDigits, IsSeparator;
    var a := sign + whole;
    SplitAt(a, d, part);
    DigitsClean(part);
    SplitClean(part);
    PartsWithSign(sign, whole);
    var parts := Split(a) + [part];
    assert parts[..|parts| - 1] == Split(a);
    assert a + [d] + part != "0" by { SeparatorIsNoZero(a, d, part); }
  }

  lemma SeparatorIsNoZero(a: string, d: char, b: string)
    requires IsSeparator(d)
    ensures a + [d] + b != "0"
  {
    assert (a + [d] + b)[|a|] == d;
  }

  /** Without a separator there is only a whole part; nothing typed is zero. */
  lemma TypedWhole(before: string, sign: string, whole: string, after: string, p: nat)
    requires AllWhitespace(before) && AllWhitespace(after) && IsSign(sign) && IsTypedDigits(whole)
    ensures Number(before + (sign + whole) + after, p) ==
            Some(BigDecimal(Signed(sign == "-", Value(OnlyDigits(whole))) * Ten(p), p))
  {
    hide *;
    PartIsWhole(whole);
    TypedWholeCleaned(whole);
    WholeCleaned(sign, whole);
    CleanedText(before, sign + whole, after);
    NumberIs(before + (sign + whole) + after, p);
    ParseTypedWhole(sign, OnlyDigits(whole), p);
  }

  lemma WholeCleaned(sign: string, whole: string)
    requires IsSign(sign) && OnlyPlainSpaces(whole)
    ensures OnlyPlainSpaces(sign + whole)
    ensures WithoutWhitespace(sign + whole) == sign + WithoutWhitespace(whole)
  {
    hide WithoutWhitespace;
    SignCleaned(sign);
    WithoutWhitespaceConcat(sign, whole);
  }

  lemma ParseTypedWhole(sign: string, digits: string, p: nat)
    requires IsSign(sign) && IsDigits(digits)
    ensures ParseClean(sign + digits, p) == Some(BigDecimal(Signed(sign == "-", Value(digits)) * Ten(p), p))
  {
    hide Split, ParseInt, IsDigits, Ten;
    ParseSignedDigits(sign, digits);
    NothingParsed();
    if sign + digits == "0" {
      ZeroTyped(sign, digits);
    } else {
      DigitsClean(digits);
      SplitClean(sign + digits);
      assert "0"[..0] == "";
      assert TrimZeroes("0") == "";
    }
  }

  lemma NothingParsed()
    ensures ParseInt("") == Some(0)
  {}

  lemma ZeroTyped(sign: string, digits: string)
    requires IsSign(sign) && IsDigits(digits) && sign + digits == "0"
    ensures Signed(sign == "-", Value(digits)) == 0
  {
    assert (sign + digits)[0] == '0';
    assert digits == "0" && "0"[..0] == "";
  }

  /** The fraction's trailing zeroes do not count: a tenth, typed with four digits, fits three. */
  lemma TenthTypedLong()
    ensures Number("0,1000", 3) == Some(BigDecimal(100, 3))
  {
    hide Number, Ten, Value, IsDigits, TrimZeroes, OnlyDigits;
    TypedNumber("", "", "0", ',', "1000", "", 3);
    assert "" + ("" + "0" + "," + "1000") + "" == "0,1000";
    ThousandDigits();
    SmallTens();
    TenthDigits();
    TenAdd(3, 4);
    var r := Number("0,1000", 3).value;
    assert r.value * 10_000 == 1_000 * 1_000;
  }

  /** Newlines and tabs around a number, and a narrow space after it, go. */
  lemma SurroundingsGo()
    ensures Number("\n 0\t\U{202F}", 3) == Some(BigDecimal(0, 3))
  {
    hide Number, Ten, Value, OnlyDigits;
    TypedWhole("\n ", "", "0", "\t\U{202F}", 3);
    ZeroDigit();
    assert "\n " + ("" + "0") + "\t\U{202F}" == "\n 0\t\U{202F}";
  }

  lemma TenthDigits()
    ensures OnlyDigits("0") == "0" && Value("0") == 0
    ensures OnlyDigits("1000") == "1000" && Value("1000") == 1000 && |TrimZeroes("1000")| == 1
  {
    hide Value, OnlyDigits, Decimal;
    ThousandDigits();
    ValueOfDecimal(1000);
    OnlyDigitsOfDigits("1000");
    ZeroDigit();
    assert "1000"[..3] == "100" && "100"[..2] == "10" && "10"[..1] == "1";
    assert TrimZeroes("10") == "1" && TrimZeroes("100") == "1";
  }

  lemma ZeroDigit()
    ensures OnlyDigits("0") == "0" && Value("0") == 0
  {
    assert "0"[..0] == "";
  }

  /** The default separators: a point, a comma, and the Arabic decimal separator. */
  lemma SeparatorsAre(c: char)
    ensures IsSeparator(c) <==> c in ".,\U{066B}"
  {}

  // ----- What is no number -----

  /** A character that belongs to no number. */
  predicate IsAlien(c: char) {
    !IsDigit(c) && c != '-' && c != '+' && !IsSeparator(c)
  }

  predicate HasAlien(s: string) {
    exists i | 0 <= i < |s| :: IsAlien(s[i])
  }

  lemma AlienIsNoNumber(s: string)
    requires HasAlien(s)
    ensures ParseInt(s) == None
  {
    var k :| 0 <= k < |s| && IsAlien(s[k]);
    if s[0] == '-' || s[0] == '+' {
      assert s[1..][k - 1] == s[k];
    }
  }

  lemma {:induction false} TrimKeepsAlien(s: string)
    requires HasAlien(s)
    ensures HasAlien(TrimZeroes(s))
  {
    hide IsSeparator;
    if s[|s| - 1] == '0' {
      var k :| 0 <= k < |s| && IsAlien(s[k]);
      assert s[..|s| - 1][k] == s[k];
      TrimKeepsAlien(s[..|s| - 1]);
    }
  }

  /** An alien character ends up in the part before the last separator or in the one after it. */
  lemma {:induction false} SplitKeepsAlien(s: string)
    requires HasAlien(s)
    ensures var parts := Split(s);
      HasAlien(Concat(parts[..|parts| - 1])) || HasAlien(parts[|parts| - 1])
  {
    hide IsSeparator, IsDigit, Split, Concat;
    var k :| 0 <= k < |s| && IsAlien(s[k]);
    var parts := Split(s);
    AlienInParts(s);
    assert parts == parts[..|parts| - 1] + [parts[|parts| - 1]];
    ConcatSnoc(parts[..|parts| - 1], parts[|parts| - 1]);
    var a, b := Concat(parts[..|parts| - 1]), parts[|parts| - 1];
    var j :| 0 <= j < |a + b| && IsAlien((a + b)[j]);
    if j < |a| {
      assert a[j] == (a + b)[j];
    } else {
      assert b[j - |a|] == (a + b)[j];
    }
  }

  lemma {:induction false} AlienInParts(s: string)
    requires HasAlien(s)
    ensures HasAlien(Concat(Split(s)))
  {
    hide Extended, IsSeparator, IsDigit;
    var k :| 0 <= k < |s| && IsAlien(s[k]);
    ExtendedKeepsContents(s[0], Split(s[1..]));
    var rest := Concat(Split(s[1..]));
    if k == 0 {
      AlienIsNoSeparator(s[0]);
      assert Concat(Split(s))[0] == s[0];
    } else {
      assert s[1..][k - 1] == s[k];
      AlienInParts(s[1..]);
      var j :| 0 <= j < |rest| && IsAlien(rest[j]);
      var all := Concat(Split(s));
      assert all[|all| - |rest| + j] == rest[j];
    }
  }

  lemma AlienIsNoSeparator(c: char)
    requires IsAlien(c)
    ensures !IsSeparator(c)
  {}

  /** Text with any such character is no number, whatever whitespace is around it. */
  lemma AlienIsRejected(before: string, core: string, after: string, p: nat)
    requires AllWhitespace(before) && AllWhitespace(after) && OnlyPlainSpaces(core)
    requires HasAlien(WithoutWhitespace(core))
    ensures Number(before + core + after, p) == None
  {
    hide *;
    CleanedText(before, core, after);
    NumberIs(before + core + after, p);
    AlienParse(WithoutWhitespace(core), p);
  }

  lemma AlienParse(s: string, p: nat)
    requires HasAlien(s)
    ensures ParseClean(s, p) == None
  {
    hide Split, Concat, ParseInt, TrimZeroes, HasAlien;
    SplitKeepsAlien(s);
    var parts := Split(s);
    var a, b := Concat(parts[..|parts| - 1]), parts[|parts| - 1];
    ZeroHasNoAlien();
    if |parts| == 1 {
      assert parts[..0] == [];
      NothingHasNoAlien(a);
      AlienIsNoNumber(b);
    } else if HasAlien(a) {
      AlienIsNoNumber(a);
    } else {
      TrimKeepsAlien(b);
      AlienIsNoNumber(TrimZeroes(b));
    }
  }

  lemma ZeroHasNoAlien()
    ensures !HasAlien("0")
  {}

  lemma NothingHasNoAlien(a: string)
    requires a == Concat([])
    ensures !HasAlien(a)
  {}
}
