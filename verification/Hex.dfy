/** Hexadecimal text: MultisigWallet/MultisigWalletDomainModel/Ethereum/Data+InitWithHex.swift and the
    library conversions it rests on. */
module Hex {
  import opened Bytes

  type Nibble = n: nat | n < 16

  predicate IsHexDigit(c: char) {
    '0' <= c <= '9' || 'a' <= c <= 'f' || 'A' <= c <= 'F'
  }

  predicate IsHex(s: string) {
    forall i | 0 <= i < |s| :: IsHexDigit(s[i])
  }

  function NibbleOf(c: char): Nibble
    requires IsHexDigit(c)
  {
    if c <= '9' then c as int - '0' as int
    else if c <= 'F' then c as int - 'A' as int + 10
    else c as int - 'a' as int + 10
  }

  function DigitOf(n: Nibble): (c: char)
    ensures IsHexDigit(c) && NibbleOf(c) == n && LowerChar(c) == c
  {
    if n < 10 then ('0' as int + n) as char else ('a' as int + n - 10) as char
  }

  function LowerChar(c: char): char {
    if 'A' <= c <= 'Z' then (c as int - 'A' as int + 'a' as int) as char else c
  }

  /** `lowercased()` on ASCII text. */
  function Lower(s: string): (r: string)
    ensures |r| == |s|
    ensures forall i | 0 <= i < |s| :: r[i] == LowerChar(s[i])
  {
    seq(|s|, i requires 0 <= i < |s| => LowerChar(s[i]))
  }

  /** Digits taken two at a time; a left-over digit becomes a byte of its own. */
  function Pairs(s: string): (data: Data)
    requires IsHex(s)
    ensures |s| % 2 == 0 ==> |data| == |s| / 2
  {
    if |s| == 0 then []
    else if |s| == 1 then [NibbleOf(s[0])]
    else [16 * NibbleOf(s[0]) + NibbleOf(s[1])] + Pairs(s[2..])
  }

  /** CryptoSwift's `Data(hex:)`: one `0x` is skipped and text that is not hexadecimal gives no bytes. */
  function FromHex(s: string): Data {
    var digits := if "0x" <= s then s[2..] else s;
    if IsHex(digits) then Pairs(digits) else []
  }

  predicate HasHexPrefix(s: string) {
    "0x" <= s || "0X" <= s
  }

  function StripPrefixes(s: string): (r: string)
    ensures !HasHexPrefix(r)
    ensures !HasHexPrefix(s) ==> r == s
  {
    if HasHexPrefix(s) then StripPrefixes(s[2..]) else s
  }

  /** `Data(ethHex:)` as a function of its text. */
  function EthHex(s: string): Data {
    var digits := StripPrefixes(s);
    FromHex((if |digits| % 2 == 1 then "0" else "") + digits)
  }

  /** The initialiser itself: the prefix-stripping loop, then the padding to whole bytes. */
  method DataFromEthHex(ethHex: string) returns (data: Data)
    ensures data == EthHex(ethHex)
  {
    var value := ethHex;
    while HasHexPrefix(value)
      invariant StripPrefixes(value) == StripPrefixes(ethHex)
      decreases |value|
    {
      value := value[2..];
    }
    var paddingToByte := if |value| % 2 == 1 then "0" else "";
    data := FromHex(paddingToByte + value);
  }

  /** `data.toHexString()`. */
  function ToHex(data: Data): (s: string)
    ensures |s| == 2 * |data|
    ensures IsHex(s) && Lower(s) == s
  {
    if data == [] then "" else [DigitOf(data[0] / 16), DigitOf(data[0] % 16)] + ToHex(data[1..])
  }

  lemma {:induction false} PairsOfToHex(data: Data)
    ensures Pairs(ToHex(data)) == data
  {
    if data != [] {
      PairsOfToHex(data[1..]);
      var high, low := DigitOf(data[0] / 16), DigitOf(data[0] % 16);
      PairsCons(high, low, ToHex(data[1..]));
      assert data == [data[0]] + data[1..];
    }
  }

  lemma PairsCons(high: char, low: char, rest: string)
    requires IsHexDigit(high) && IsHexDigit(low) && IsHex(rest)
    ensures IsHex([high, low] + rest)
    ensures Pairs([high, low] + rest) == [16 * NibbleOf(high) + NibbleOf(low)] + Pairs(rest)
  {
    assert ([high, low] + rest)[2..] == rest;
  }

  lemma {:induction false} ToHexOfPairs(s: string)
    requires IsHex(s) && |s| % 2 == 0
    ensures ToHex(Pairs(s)) == Lower(s)
  {
    hide IsHexDigit, NibbleOf, LowerChar, ToHex;
    if s == "" {
      assert ToHex([]) == "" && Lower(s) == "";
    } else {
      ToHexOfPairs(s[2..]);
      ToHexOfByte(s[0], s[1], Pairs(s[2..]));
      assert Lower(s) == [LowerChar(s[0]), LowerChar(s[1])] + Lower(s[2..]);
    }
  }

  lemma ToHexOfByte(high: char, low: char, rest: Data)
    requires IsHexDigit(high) && IsHexDigit(low)
    ensures ToHex([16 * NibbleOf(high) + NibbleOf(low)] + rest) == [LowerChar(high), LowerChar(low)] + ToHex(rest)
  {
    var b := 16 * NibbleOf(high) + NibbleOf(low);
    assert b / 16 == NibbleOf(high) && b % 16 == NibbleOf(low);
    DigitOfNibble(high);
    DigitOfNibble(low);
    assert ([b] + rest)[1..] == rest;
  }

  lemma DigitOfNibble(c: char)
    requires IsHexDigit(c)
    ensures DigitOf(NibbleOf(c)) == LowerChar(c)
  {}

  /** Text with a prefix and an even number of digits: the prefix goes, the digits become bytes. */
  lemma EthHexOfPrefixed(digits: string)
    requires IsHex(digits) && |digits| % 2 == 0
    ensures EthHex("0x" + digits) == Pairs(digits)
    ensures EthHex(digits) == Pairs(digits)
  {
    NoPrefixInHex(digits);
    var s := "0x" + digits;
    assert s[2..] == digits;
    assert StripPrefixes(s) == digits;
    assert "" + digits == digits;
  }

  lemma EthHexOfToHex(data: Data)
    ensures EthHex("0x" + ToHex(data)) == data
  {
    EthHexOfPrefixed(ToHex(data));
    PairsOfToHex(data);
  }

  lemma NoPrefixInHex(s: string)
    requires IsHex(s)
    ensures !HasHexPrefix(s)
  {
    if |s| >= 2 { assert IsHexDigit(s[1]); }
  }

  // ----- Numbers as text -----

  /** `String(value, radix: 16)`. */
  function HexOfNat(n: nat): (s: string)
    ensures IsHex(s) && |s| > 0
  {
    if n < 16 then [DigitOf(n)] else HexOfNat(n / 16) + [DigitOf(n % 16)]
  }

  function HexValue(s: string): nat
    requires IsHex(s)
  {
    if s == "" then 0 else HexValue(s[..|s| - 1]) * 16 + NibbleOf(s[|s| - 1])
  }

  lemma {:induction false} HexValueOfHexOfNat(n: nat)
    ensures HexValue(HexOfNat(n)) == n
  {
    if n >= 16 {
      HexValueOfHexOfNat(n / 16);
      assert HexOfNat(n)[..|HexOfNat(n)| - 1] == HexOfNat(n / 16);
    } else {
      assert HexOfNat(n)[..0] == "";
    }
  }

  lemma {:induction false} HexOfNatLength(n: nat, k: nat)
    requires k > 0 && n < Pow(16, k)
    ensures |HexOfNat(n)| <= k
  {
    if n >= 16 {
      assert Pow(16, k) == 16 * Pow(16, k - 1);
      assert k > 1 by { assert Pow(16, 0) == 1; }
      HexOfNatLength(n / 16, k - 1);
    }
  }

  lemma {:induction false} HexValueLeadingZero(s: string)
    requires IsHex(s)
    ensures HexValue("0" + s) == HexValue(s)
  {
    if s == "" {
      assert "0" + s == "0" && "0"[..0] == "";
    } else {
      HexValueLeadingZero(s[..|s| - 1]);
      assert ("0" + s)[..|s|] == "0" + s[..|s| - 1];
    }
  }

  lemma {:induction false} PairsSnoc(s: string)
    requires IsHex(s) && |s| % 2 == 0 && |s| > 0
    ensures Pairs(s) == Pairs(s[..|s| - 2]) + [16 * NibbleOf(s[|s| - 2]) + NibbleOf(s[|s| - 1])]
  {
    hide IsHexDigit, NibbleOf;
    if |s| > 2 {
      PairsSnoc(s[2..]);
      assert s[2..][..|s| - 4] == s[..|s| - 2][2..];
    }
  }

  /** Pairing digits into bytes keeps the number they spell. */
  lemma {:induction false} PairsKeepValue(s: string)
    requires IsHex(s) && |s| % 2 == 0
    ensures ToNat(Pairs(s)) == HexValue(s)
  {
    if s != "" {
      PairsSnoc(s);
      var init := s[..|s| - 2];
      PairsKeepValue(init);
      assert Pairs(s)[..|Pairs(s)| - 1] == Pairs(init);
      assert s[..|s| - 1][..|s| - 2] == init;
    }
  }

  /** `Data(ethHex: String(value, radix: 16))`: the shortest whole-byte form, one zero byte for zero. */
  function Minimal(n: nat): (data: Data) {
    EthHex(HexOfNat(n))
  }

  lemma MinimalValue(n: nat)
    ensures ToNat(Minimal(n)) == n
  {
    var digits := HexOfNat(n);
    var padded := (if |digits| % 2 == 1 then "0" else "") + digits;
    NoPrefixInHex(digits);
    assert IsHex(padded);
    NoPrefixInHex(padded);
    PairsKeepValue(padded);
    HexValueOfHexOfNat(n);
    if |digits| % 2 == 1 {
      HexValueLeadingZero(digits);
    } else {
      assert padded == digits;
    }
  }

  lemma MinimalLength(n: nat, k: nat)
    requires k > 0 && n < Pow(256, k)
    ensures |Minimal(n)| <= k
  {
    PowSquare(16, k);
    HexOfNatLength(n, 2 * k);
    var digits := HexOfNat(n);
    var padded := (if |digits| % 2 == 1 then "0" else "") + digits;
    NoPrefixInHex(digits);
    assert IsHex(padded);
    NoPrefixInHex(padded);
  }

  // ----- Any text -----

  /** The digits, in order. */
  lemma DigitsInOrder(n: Nibble)
    ensures DigitOf(n) == "0123456789abcdef"[n]
  {}

  /** However many prefixes there are, they do not matter. */
  lemma PrefixesDropped(s: string)
    ensures EthHex("0x" + s) == EthHex(s) && EthHex("0X" + s) == EthHex(s)
  {
    assert ("0x" + s)[2..] == s && ("0X" + s)[2..] == s;
  }

  function EvenDigits(digits: string): (r: string)
    requires IsHex(digits)
    ensures IsHex(r) && |r| % 2 == 0 && |r| / 2 == (|digits| + 1) / 2
    ensures HexValue(r) == HexValue(digits)
  {
    ZeroIsHex();
    HexValueLeadingZero(digits);
    if |digits| % 2 == 1 then "0" + digits else digits
  }

  lemma EthHexOfAny(digits: string)
    requires IsHex(digits)
    ensures EthHex(digits) == Pairs(EvenDigits(digits))
  {
    hide IsHexDigit, HexValue, Pairs;
    NoPrefixInHex(digits);
    NoPrefixInHex(EvenDigits(digits));
    assert (if |digits| % 2 == 1 then "0" else "") + digits == EvenDigits(digits);
  }

  /** Digits of any number become the bytes of the number they spell, padded in front. */
  lemma EthHexOfDigits(digits: string)
    requires IsHex(digits)
    ensures ToNat(EthHex(digits)) == HexValue(digits)
    ensures |EthHex(digits)| == (|digits| + 1) / 2
  {
    hide IsHex, HexValue, Pairs, EthHex, ToNat;
    EthHexOfAny(digits);
    PairsKeepValue(EvenDigits(digits));
  }

  lemma ZeroIsHex()
    ensures IsHexDigit('0')
  {}

  /** Other text gives no bytes, unless the padding digit completes a prefix. */
  lemma EthHexOfOther(s: string)
    requires !HasHexPrefix(s) && !IsHex(s) && s[0] != 'x'
    ensures EthHex(s) == []
  {
    hide IsHexDigit;
    var padded := (if |s| % 2 == 1 then "0" else "") + s;
    var k :| 0 <= k < |s| && !IsHexDigit(s[k]);
    assert padded[|padded| - |s| + k] == s[k];
    if |s| % 2 == 1 {
      assert padded[1] == s[0];
    } else {
      assert padded == s;
    }
  }
}
