/** Decimal numerals as text: the string form of a number, and the zero trimming of
    SafeUIKit/SafeUIKit/String+Extensions.swift. */
module DecimalText {
  import opened Bytes

  predicate IsDigit(c: char) {
    '0' <= c <= '9'
  }

  predicate IsDigits(s: string) {
    forall i | 0 <= i < |s| :: IsDigit(s[i])
  }

  function DigitValue(c: char): (d: nat)
    requires IsDigit(c)
    ensures d < 10
  {
    c as int - '0' as int
  }

  function DigitChar(d: nat): (c: char)
    requires d < 10
    ensures IsDigit(c) && DigitValue(c) == d
    ensures c == '0' <==> d == 0
  {
    ('0' as int + d) as char
  }

  lemma DigitsInOrder(d: nat)
    requires d < 10
    ensures DigitChar(d) == "0123456789"[d]
  {}

  /** The number a string of digits spells; nothing spells zero. */
  function Value(s: string): nat
    requires IsDigits(s)
  {
    if s == "" then 0 else Value(s[..|s| - 1]) * 10 + DigitValue(s[|s| - 1])
  }

  /** `String(n)`. */
  function Decimal(n: nat): (s: string)
    ensures IsDigits(s) && |s| > 0
  {
    if n < 10 then [DigitChar(n)] else Decimal(n / 10) + [DigitChar(n % 10)]
  }

  function Ten(e: nat): (p: nat)
    ensures p > 0
  {
    Pow(10, e)
  }

  /** The quotient and the remainder by a power of ten. */
  function Over(n: nat, e: nat): (q: nat) {
    DivisionFits(n, Ten(e));
    n / Ten(e)
  }

  function Below(n: nat, e: nat): (r: nat)
    ensures r < Ten(e)
  {
    n % Ten(e)
  }

  lemma DivisionFits(n: nat, d: nat)
    requires d > 0
    ensures 0 <= n / d <= n
    ensures n == n / d * d + n % d
  {
    MulAtLeast(n / d, d);
  }

  lemma OverBelow(n: nat, e: nat)
    ensures n == Over(n, e) * Ten(e) + Below(n, e)
  {
    DivisionFits(n, Ten(e));
  }

  lemma TenAdd(a: nat, b: nat)
    ensures Ten(a + b) == Ten(a) * Ten(b)
  {
    PowAdd(10, a, b);
  }

  lemma {:induction false} ValueOfDecimal(n: nat)
    ensures Value(Decimal(n)) == n
  {
    if n >= 10 {
      ValueOfDecimal(n / 10);
      assert Decimal(n)[..|Decimal(n)| - 1] == Decimal(n / 10);
    } else {
      assert Decimal(n)[..0] == "";
    }
  }

  lemma {:induction false} ValueConcat(a: string, b: string)
    requires IsDigits(a) && IsDigits(b)
    ensures IsDigits(a + b)
    ensures Value(a + b) == Value(a) * Ten(|b|) + Value(b)
  {
    hide IsDigit, DigitValue;
    if b == "" {
      assert a + b == a;
    } else {
      var c := b[..|b| - 1];
      ValueConcat(a, c);
      assert (a + b)[..|a + b| - 1] == a + c;
      ShiftOne(Value(a), Ten(|c|), Value(c));
      assert Ten(|b|) == 10 * Ten(|c|);
    }
  }

  lemma ShiftOne(a: nat, t: nat, c: nat)
    ensures (a * t + c) * 10 == a * (10 * t) + c * 10
  {
    MulAssociates(a, t, 10);
  }

  lemma {:induction false} ValueBound(s: string)
    requires IsDigits(s)
    ensures Value(s) < Ten(|s|)
  {
    if s != "" {
      ValueBound(s[..|s| - 1]);
    }
  }

  /** The last digits of a numeral spell a remainder and the others a quotient. */
  lemma ValueSplit(s: string, k: nat)
    requires IsDigits(s) && k <= |s|
    ensures Value(s[..|s| - k]) == Over(Value(s), k)
    ensures Value(s[|s| - k..]) == Below(Value(s), k)
  {
    hide IsDigit, Ten, Value;
    var high, low := s[..|s| - k], s[|s| - k..];
    assert s == high + low;
    ValueConcat(high, low);
    ValueBound(low);
    DivModUnique(Value(s), Ten(k), Value(high), Value(low));
  }

  function Zeros(count: nat): (s: string)
    ensures |s| == count && IsDigits(s) && Value(s) == 0
    ensures forall i | 0 <= i < count :: s[i] == '0'
  {
    if count == 0 then "" else Zeros(count - 1) + "0"
  }

  lemma LeadingZeros(count: nat, s: string)
    requires IsDigits(s)
    ensures IsDigits(Zeros(count) + s) && Value(Zeros(count) + s) == Value(s)
  {
    hide Value, IsDigit;
    ValueConcat(Zeros(count), s);
  }

  lemma TrailingZeros(s: string, count: nat)
    requires IsDigits(s)
    ensures IsDigits(s + Zeros(count)) && Value(s + Zeros(count)) == Value(s) * Ten(count)
  {
    hide Value, IsDigit;
    ValueConcat(s, Zeros(count));
  }

  // ----- Size of a numeral -----

  /** The number of digits tells the magnitude. */
  lemma {:induction false} DecimalLength(n: nat)
    ensures n < Ten(|Decimal(n)|)
    ensures n > 0 ==> Ten(|Decimal(n)| - 1) <= n
    ensures n == 0 ==> Decimal(n) == "0"
  {
    if n >= 10 {
      DecimalLength(n / 10);
    }
  }

  lemma {:induction false} DecimalNoLeadingZero(n: nat)
    requires n > 0
    ensures Decimal(n)[0] != '0'
  {
    if n >= 10 {
      DecimalNoLeadingZero(n / 10);
    }
  }

  lemma DivTwice(n: nat, a: nat, b: nat)
    requires a > 0 && b > 0
    ensures a * b > 0 && (n / a) / b == n / (a * b)
  {
    var q, r := n / a, n % a;
    var q', r' := q / b, q % b;
    assert n == (q' * b + r') * a + r;
    Nested(q', b, a, r', r);
    Product(r', r, a, b);
    DivModUnique(n, a * b, q', r' * a + r);
  }

  lemma Nested(q: int, b: nat, a: nat, r: int, s: int)
    ensures (q * b + r) * a + s == q * (a * b) + (r * a + s)
  {
    MulAssociates(q, b, a);
    MulDistributes(q * b, r, a);
  }

  lemma Product(r: nat, s: nat, a: nat, b: nat)
    requires r < b && s < a
    ensures 0 <= r * a + s < a * b
  {
    MulMonotone(r, b - 1, a);
    MulDistributes(b - 1, 1, a);
  }

  lemma OverTenth(n: nat, k: nat)
    requires k > 0
    ensures Over(n / 10, k - 1) == Over(n, k)
  {
    DivTwice(n, 10, Ten(k - 1));
  }

  lemma OverOne(n: nat)
    ensures Over(n, 0) == n
  {}

  lemma DecimalSnoc(n: nat)
    requires |Decimal(n)| > 1
    ensures |Decimal(n)| == |Decimal(n / 10)| + 1 && Decimal(n)[..|Decimal(n)| - 1] == Decimal(n / 10)
  {}

  /** Dropping the last digits of a numeral divides: the rest is the numeral of the quotient. */
  lemma {:induction false} DecimalPrefix(n: nat, k: nat)
    requires k < |Decimal(n)|
    ensures Decimal(n)[..|Decimal(n)| - k] == Decimal(Over(n, k))
  {
    hide Decimal, Over, IsDigits;
    var s := Decimal(n);
    if k == 0 {
      assert s[..|s|] == s;
      OverOne(n);
    } else {
      DecimalSnoc(n);
      DecimalPrefix(n / 10, k - 1);
      OverTenth(n, k);
      var t := Decimal(n / 10);
      assert s[..|s| - k] == t[..|t| - (k - 1)];
    }
  }

  // ----- Trailing zeroes -----

  function TrimZeroes(s: string): (r: string)
    ensures r <= s
    ensures r == "" || r[|r| - 1] != '0'
  {
    if s != "" && s[|s| - 1] == '0' then TrimZeroes(s[..|s| - 1]) else s
  }

  /** `removingTrailingZeroes`: the loop that removes the last character while it is a zero. */
  method RemovingTrailingZeroes(s: string) returns (result: string)
    ensures result == TrimZeroes(s)
  {
    result := s;
    while result != "" && result[|result| - 1] == '0'
      invariant TrimZeroes(result) == TrimZeroes(s)
      decreases |result|
    {
      result := result[..|result| - 1];
    }
  }

  /** What was trimmed was zeroes: putting them back restores the string. */
  lemma {:induction false} TrimThenPad(s: string)
    ensures s == TrimZeroes(s) + Zeros(|s| - |TrimZeroes(s)|)
  {
    if s != "" && s[|s| - 1] == '0' {
      var init := s[..|s| - 1];
      TrimThenPad(init);
      var missing := |init| - |TrimZeroes(init)|;
      assert s == init + "0";
      assert Zeros(missing + 1) == Zeros(missing) + "0";
    }
  }

  lemma TrimmedValue(s: string)
    requires IsDigits(s)
    ensures IsDigits(TrimZeroes(s))
    ensures Value(s) == Value(TrimZeroes(s)) * Ten(|s| - |TrimZeroes(s)|)
  {
    hide Value, IsDigit;
    TrimThenPad(s);
    TrailingZeros(TrimZeroes(s), |s| - |TrimZeroes(s)|);
  }

  lemma TrimTwice(s: string)
    ensures TrimZeroes(TrimZeroes(s)) == TrimZeroes(s)
  {}
}
