/** The argument codec of MultisigWallet/MultisigWalletDomainModel/EthereumContractProxy.swift. */
module AbiCodec {
  import opened Outcomes
  import opened Bytes
  import opened Hex

  // ----- Words -----

  /** 2^256, the number of values of one word, and 2^160, the number of addresses. */
  const WORD_SPAN: nat := 0x1_0000_0000_0000_0000_0000_0000_0000_0000_0000_0000_0000_0000_0000_0000_0000_0000
  const ADDRESS_SPAN: nat := 0x1_0000_0000_0000_0000_0000_0000_0000_0000_0000_0000

  lemma Spans()
    ensures Pow(256, 32) == WORD_SPAN && Pow(256, 20) == ADDRESS_SPAN
  {
    assert Pow(256, 4) == 0x1_0000_0000;
    PowAdd(256, 4, 4);
    PowAdd(256, 8, 8);
    PowAdd(256, 16, 4);
    PowAdd(256, 16, 16);
  }

  function EncodeUInt(value: nat): (r: Data)
    ensures |r| == 32
  {
    Suffix(LeftPadded(Minimal(value), 32), 32)
  }

  /** Only the first 32 bytes count, and fewer are accepted. */
  function DecodeUInt(value: Data): (n: nat) {
    ToNat(Prefix(value, 32))
  }

  /** A number too big for a word is reduced modulo 2^256. */
  lemma EncodeUIntValue(n: nat)
    ensures ToNat(EncodeUInt(n)) == n % WORD_SPAN
  {
    Spans();
    MinimalValue(n);
    SuffixIsRemainder(LeftPadded(Minimal(n), 32), 32);
  }

  lemma EncodedWord(n: nat)
    requires n < WORD_SPAN
    ensures ToNat(EncodeUInt(n)) == n
  {
    var value := ToNat(EncodeUInt(n));
    EncodeUIntValue(n);
    RemainderOfSmall(n, WORD_SPAN, value);
  }

  /** Decoding reads the first word, whatever follows it in the buffer. */
  lemma DecodeFirstWord(word: Data, rest: Data)
    requires |word| == 32
    ensures DecodeUInt(word + rest) == ToNat(word)
    ensures DecodeUInt(word) == ToNat(word)
  {
    assert Prefix(word + rest, 32) == word;
  }

  /** Decoding an encoded number gives it modulo 2^256. */
  lemma DecodeEncodedUInt(n: nat, rest: Data)
    ensures DecodeUInt(EncodeUInt(n) + rest) == n % WORD_SPAN
  {
    EncodeUIntValue(n);
    DecodeFirstWord(EncodeUInt(n), rest);
  }

  lemma EncodeDecodedUInt(word: Data)
    requires |word| == 32
    ensures EncodeUInt(DecodeUInt(word)) == word
  {
    var n := ToNat(word);
    assert n < WORD_SPAN by {
      Spans();
      ToNatBound(word);
    }
    DecodeFirstWord(word, []);
    EncodedWord(n);
    ToNatInjective(EncodeUInt(n), word);
  }

  // ----- Addresses -----

  /** The text of an address. Its initialisers accept 20 bytes in hexadecimal, or no bytes at all. */
  datatype Address = Address(text: string) {
    predicate Valid() {
      |EthHex(text)| == 20 || |EthHex(text)| == 0
    }
  }

  predicate AllValid(addresses: seq<Address>) {
    forall i | 0 <= i < |addresses| :: addresses[i].Valid()
  }

  function AddressValue(a: Address): nat {
    ToNat(EthHex(a.text))
  }

  lemma AddressValueBound(a: Address)
    requires a.Valid()
    ensures AddressValue(a) < ADDRESS_SPAN < WORD_SPAN
  {
    hide EthHex, ToNat;
    Spans();
    ToNatBound(EthHex(a.text));
    PowMonotone(256, |EthHex(a.text)|, 20);
  }

  function AddressText(data: Data): Address {
    Address("0x" + ToHex(data))
  }

  lemma AddressTextBytes(data: Data)
    ensures EthHex(AddressText(data).text) == data
  {
    hide EthHex, ToHex;
    EthHexOfToHex(data);
  }

  /** The private initialiser of an address from a number: above 20 bytes it keeps the leading ones. */
  function AddressOf(n: nat): Address {
    AddressText(LeftPadded(EndTruncated(Minimal(n), 20), 20))
  }

  function EncodeAddress(a: Address): (r: Data)
    ensures |r| == 32
  {
    EncodeUInt(AddressValue(a))
  }

  function DecodeAddress(value: Data): Address {
    AddressOf(DecodeUInt(value))
  }

  /** The form in which decoding returns an address: `0x` and 40 lower-case digits. */
  function Normalised(a: Address): Address {
    AddressText(LeftPadded(EthHex(a.text), 20))
  }

  lemma AddressOfValid(n: nat)
    ensures AddressOf(n).Valid()
    ensures n < ADDRESS_SPAN ==> AddressValue(AddressOf(n)) == n
  {
    hide EthHex, Minimal, AddressText;
    AddressTextBytes(LeftPadded(EndTruncated(Minimal(n), 20), 20));
    if n < ADDRESS_SPAN {
      Spans();
      MinimalLength(n, 20);
      MinimalValue(n);
    }
  }

  /** Normalising keeps the value, and gives the same text for every spelling of one value. */
  lemma NormalisedDetermined(a: Address, data: Data)
    requires a.Valid() && |data| == 20 && ToNat(data) == AddressValue(a)
    ensures AddressText(data) == Normalised(a)
  {
    hide EthHex, AddressText;
    ToNatInjective(data, LeftPadded(EthHex(a.text), 20));
  }

  lemma AddressOfAddressValue(a: Address)
    requires a.Valid()
    ensures AddressOf(AddressValue(a)) == Normalised(a)
  {
    hide EthHex, Minimal, AddressText, Normalised;
    var n := AddressValue(a);
    AddressValueBound(a);
    Spans();
    MinimalLength(n, 20);
    MinimalValue(n);
    NormalisedDetermined(a, LeftPadded(EndTruncated(Minimal(n), 20), 20));
  }

  /** Decoding an encoded address gives its normalised form. */
  lemma DecodeEncodedAddress(a: Address, rest: Data)
    requires a.Valid()
    ensures DecodeAddress(EncodeAddress(a) + rest) == Normalised(a)
  {
    hide EncodeUInt, DecodeUInt, ToNat, AddressValue, AddressOf, Normalised;
    AddressValueBound(a);
    EncodedWord(AddressValue(a));
    DecodeFirstWord(EncodeAddress(a), rest);
    AddressOfAddressValue(a);
  }

  /** For the usual text, `0x` and 40 digits, normalising only lowers the case. */
  lemma NormalisedCanonical(digits: string)
    requires IsHex(digits) && |digits| == 40
    ensures Address("0x" + digits).Valid()
    ensures Normalised(Address("0x" + digits)) == Address("0x" + Lower(digits))
  {
    hide EthHex, ToHex, IsHex;
    EthHexOfPrefixed(digits);
    ToHexOfPairs(digits);
  }

  lemma NormalisedEncodes(a: Address)
    ensures EncodeAddress(Normalised(a)) == EncodeAddress(a)
  {
    hide EthHex, ToHex, EncodeUInt, LeftPadded, AddressText;
    AddressTextBytes(LeftPadded(EthHex(a.text), 20));
  }

  /** Re-encoding a decoded address word gives the word back exactly when it is below 2^160. */
  lemma EncodeDecodedAddress(word: Data)
    requires |word| == 32
    ensures EncodeAddress(DecodeAddress(word)) == word <==> DecodeUInt(word) < ADDRESS_SPAN
  {
    hide EncodeUInt, DecodeUInt, ToNat, AddressValue, AddressOf;
    var n := DecodeUInt(word);
    var a := AddressOf(n);
    AddressOfValid(n);
    AddressValueBound(a);
    if n < ADDRESS_SPAN {
      EncodeDecodedUInt(word);
    } else {
      EncodedWord(AddressValue(a));
      DecodeFirstWord(word, []);
    }
  }

  /** A number of more than 20 bytes loses its last ones. */
  lemma WideAddressValue(n: nat, k: nat)
    requires Pow(256, 19 + k) <= n < Pow(256, 20 + k)
    ensures AddressValue(AddressOf(n)) == n / Pow(256, k)
  {
    hide *;
    var bytes := Minimal(n);
    MinimalValue(n);
    MinimalLength(n, 20 + k);
    ToNatBound(bytes);
    if |bytes| < 20 + k {
      PowMonotone(256, |bytes|, 19 + k);
    }
    LeadingBytes(bytes, k);
    AddressOfBytes(n, bytes);
  }

  lemma LeadingBytes(bytes: Data, k: nat)
    requires |bytes| == 20 + k
    ensures ToNat(bytes[..20]) == ToNat(bytes) / Pow(256, k)
  {
    hide ToNat;
    var high, low := bytes[..20], bytes[20..];
    assert bytes == high + low;
    ToNatConcat(high, low);
    ToNatBound(low);
    DivModUnique(ToNat(bytes), Pow(256, k), ToNat(high), ToNat(low));
  }

  lemma AddressOfBytes(n: nat, bytes: Data)
    requires bytes == Minimal(n) && |bytes| >= 20
    ensures AddressValue(AddressOf(n)) == ToNat(bytes[..20])
  {
    hide EthHex, Minimal, AddressText, ToNat;
    AddressTextBytes(bytes[..20]);
    assert bytes[..|bytes|] == bytes;
  }

  /** The first word too big for an address: 2^160 is read as 2^152. */
  lemma WideAddressChanges()
    ensures EncodeAddress(DecodeAddress(EncodeUInt(ADDRESS_SPAN))) != EncodeUInt(ADDRESS_SPAN)
    ensures AddressValue(DecodeAddress(EncodeUInt(ADDRESS_SPAN))) == 0x1_00_0000_0000_0000_0000_0000_0000_0000_0000_0000
  {
    hide EncodeUInt, DecodeUInt, ToNat, EncodeAddress, AddressOf, AddressValue;
    EncodedWord(ADDRESS_SPAN);
    DecodeFirstWord(EncodeUInt(ADDRESS_SPAN), []);
    EncodeDecodedAddress(EncodeUInt(ADDRESS_SPAN));
    Spans();
    PowerOne();
    assert Pow(256, 21) == 256 * Pow(256, 20);
    WideAddressValue(ADDRESS_SPAN, 1);
  }

  lemma PowerOne()
    ensures Pow(256, 1) == 256
  {}

  /** Normalising gives 42 characters, `0x` in front, no capitals, and keeps the value. */
  lemma NormalisedShape(a: Address)
    requires a.Valid()
    ensures |Normalised(a).text| == 42 && "0x" <= Normalised(a).text
    ensures Lower(Normalised(a).text) == Normalised(a).text
    ensures IsHex(Normalised(a).text[2..]) && AddressValue(Normalised(a)) == AddressValue(a)
  {
    hide EthHex, ToNat, IsHexDigit;
    var bytes := LeftPadded(EthHex(a.text), 20);
    AddressTextBytes(bytes);
    assert Lower("0x" + ToHex(bytes)) == "0x" + Lower(ToHex(bytes));
  }

  lemma ReadAddress(word: Data, a: Address)
    requires a.Valid() && word == EncodeAddress(a)
    ensures DecodeAddress(word) == Normalised(a)
  {
    hide EncodeAddress, DecodeAddress, Normalised;
    DecodeEncodedAddress(a, []);
    assert word + [] == word;
  }

  lemma ReadWord(word: Data, n: nat)
    requires word == EncodeUInt(n)
    ensures DecodeUInt(word) == n % WORD_SPAN
    ensures n < WORD_SPAN ==> DecodeUInt(word) == n
  {
    hide EncodeUInt, DecodeUInt, ToNat;
    DecodeEncodedUInt(n, []);
    assert word + [] == word;
    if n < WORD_SPAN {
      EncodedWord(n);
      DecodeFirstWord(word, []);
    }
  }

  // ----- Sequences of words -----

  /** `reduce(into: Data()) { $0.append($1) }`. */
  function Flatten(parts: seq<Data>): (data: Data) {
    if parts == [] then [] else Flatten(parts[..|parts| - 1]) + parts[|parts| - 1]
  }

  lemma {:induction false} FlattenConcat(a: seq<Data>, b: seq<Data>)
    ensures Flatten(a + b) == Flatten(a) + Flatten(b)
  {
    if b == [] {
      assert a + b == a;
    } else {
      var c := b[..|b| - 1];
      FlattenConcat(a, c);
      assert (a + b)[..|a + b| - 1] == a + c;
    }
  }

  lemma FlattenOne(part: Data)
    ensures Flatten([part]) == part
  {
    assert [part][..0] == [];
  }

  lemma {:induction false} FlattenEmpties(parts: seq<Data>)
    requires forall i | 0 <= i < |parts| :: parts[i] == []
    ensures Flatten(parts) == []
  {
    if parts != [] { FlattenEmpties(parts[..|parts| - 1]); }
  }

  function Words(values: seq<nat>): (r: seq<Data>)
    ensures |r| == |values|
    ensures forall i | 0 <= i < |r| :: r[i] == EncodeUInt(values[i])
  {
    seq(|values|, i requires 0 <= i < |values| => EncodeUInt(values[i]))
  }

  function Slot(data: Data, i: nat): (word: Data)
    requires 32 * i + 32 <= |data|
    ensures |word| == 32
  {
    data[32 * i..32 * i + 32]
  }

  lemma FirstWord(buffer: Data)
    requires |buffer| >= 32
    ensures DecodeUInt(buffer) == DecodeUInt(buffer[..32])
    ensures DecodeAddress(buffer) == DecodeAddress(buffer[..32])
  {
    hide AddressOf, ToNat;
    assert Prefix(buffer, 32) == Prefix(buffer[..32], 32);
  }

  lemma FirstWordIsSlot(args: Data, k: nat)
    requires 32 * k + 32 <= |args|
    ensures DecodeUInt(args[32 * k..]) == DecodeUInt(Slot(args, k))
    ensures DecodeAddress(args[32 * k..]) == DecodeAddress(Slot(args, k))
  {
    assert Prefix(args[32 * k..], 32) == Slot(args, k);
  }

  /** Words laid end to end can be taken out again by position. */
  lemma {:induction false} FlattenSlots(parts: seq<Data>, rest: Data)
    requires forall i | 0 <= i < |parts| :: |parts[i]| == 32
    ensures |Flatten(parts)| == 32 * |parts|
    ensures forall i | 0 <= i < |parts| :: Slot(Flatten(parts) + rest, i) == parts[i]
  {
    if parts != [] {
      var last := parts[|parts| - 1];
      FlattenSlots(parts[..|parts| - 1], last + rest);
      assert Flatten(parts) + rest == Flatten(parts[..|parts| - 1]) + (last + rest);
    }
  }

  /** Data of a whole number of words is determined by its words. */
  lemma {:induction false} WordsOfData(args: Data, count: nat)
    requires |args| == 32 * count
    ensures Flatten(seq(count, i requires 0 <= i < count => Slot(args, i))) == args
  {
    hide Slot;
    var words := seq(count, i requires 0 <= i < count => Slot(args, i));
    if count > 0 {
      var init := args[..32 * (count - 1)];
      var before := seq(count - 1, i requires 0 <= i < count - 1 => Slot(init, i));
      WordsOfData(init, count - 1);
      SlotsOfInit(args, count);
      assert words[..count - 1] == before;
    }
  }

  lemma SlotsOfInit(args: Data, count: nat)
    requires |args| == 32 * count && count > 0
    ensures var init := args[..32 * (count - 1)];
      && args == init + Slot(args, count - 1)
      && forall i | 0 <= i < count - 1 :: Slot(init, i) == Slot(args, i)
  {}

  /** All heads come before all (empty) tails. */
  function EncodeTupleUInt(values: seq<nat>): Data {
    Flatten(Words(values) + seq(|values|, i => []))
  }

  function DecodeTupleUInt(value: Data, count: nat): Outcome<seq<nat>> {
    if count * 32 > MAX_INT then Traps
    else if |value| < count * 32 then Returns([])
    else Returns(seq(count, i requires 0 <= i < count => DecodeUInt(Slot(value, i))))
  }

  function EncodeArrayUInt(values: seq<nat>): Data {
    EncodeUInt(32) + EncodeUInt(|values|) + EncodeTupleUInt(values)
  }

  function DecodeArrayUInt(value: Data): Outcome<seq<nat>> {
    if value == [] then Returns([])
    else
      var offset := DecodeUInt(value);
      if offset >= |value| then Returns([])
      else
        var data := value[offset..];
        var count := DecodeUInt(data);
        if (1 + count) * 32 < |data| then Returns([])
        else if |data| < 32 || count > MAX_INT then Traps
        else DecodeTupleUInt(data[32..], count)
  }

  predicate AllWords(values: seq<nat>) {
    forall i | 0 <= i < |values| :: values[i] < WORD_SPAN
  }

  lemma EncodeTupleIsWords(values: seq<nat>)
    ensures EncodeTupleUInt(values) == Flatten(Words(values))
    ensures |EncodeTupleUInt(values)| == 32 * |values|
  {
    var tails := seq(|values|, i => []);
    FlattenConcat(Words(values), tails);
    FlattenEmpties(tails);
    FlattenSlots(Words(values), []);
  }

  lemma DecodeEncodedTuple(values: seq<nat>, rest: Data)
    requires AllWords(values) && 32 * |values| <= MAX_INT
    ensures DecodeTupleUInt(EncodeTupleUInt(values) + rest, |values|) == Returns(values)
  {
    hide EncodeTupleUInt, DecodeUInt, Slot;
    EncodeTupleIsWords(values);
    var data := EncodeTupleUInt(values) + rest;
    forall i | 0 <= i < |values| ensures DecodeUInt(Slot(data, i)) == values[i] {
      SlotOfTuple(values, rest, i);
    }
    var decoded := seq(|values|, i requires 0 <= i < |values| => DecodeUInt(Slot(data, i)));
    assert decoded == values;
  }

  lemma SlotOfTuple(values: seq<nat>, rest: Data, i: nat)
    requires AllWords(values) && i < |values|
    ensures |EncodeTupleUInt(values)| == 32 * |values|
    ensures DecodeUInt(Slot(EncodeTupleUInt(values) + rest, i)) == values[i]
  {
    hide EncodeUInt, DecodeUInt, Slot, Flatten;
    EncodeTupleIsWords(values);
    FlattenSlots(Words(values), rest);
    EncodedWord(values[i]);
    DecodeFirstWord(EncodeUInt(values[i]), []);
  }

  /** The array decoder inverts the array encoder on every list of words. */
  lemma DecodeEncodedArray(values: seq<nat>)
    requires AllWords(values) && |EncodeArrayUInt(values)| <= MAX_INT
    ensures DecodeArrayUInt(EncodeArrayUInt(values)) == Returns(values)
  {
    hide EncodeUInt, EncodeTupleUInt, DecodeTupleUInt, DecodeArrayUInt, ToNat;
    var items := EncodeTupleUInt(values);
    assert |items| == 32 * |values| by { EncodeTupleIsWords(values); }
    EncodedWord(32);
    EncodedWord(|values|);
    ArrayOfWords(EncodeUInt(32), EncodeUInt(|values|), items, |values|);
    assert items + [] == items;
    DecodeEncodedTuple(values, []);
  }

  lemma ArrayOfWords(offset: Data, length: Data, items: Data, count: nat)
    requires |offset| == 32 && ToNat(offset) == 32
    requires |length| == 32 && ToNat(length) == count
    requires |items| == 32 * count && |items| <= MAX_INT
    ensures DecodeArrayUInt(offset + length + items) == DecodeTupleUInt(items, count)
  {
    var value := offset + length + items;
    assert value == offset + (length + items);
    DecodeFirstWord(offset, length + items);
    DecodeFirstWord(length, items);
    assert value[32..] == length + items;
    assert (length + items)[32..] == items;
  }

  /** What the two length guards let through: a non-empty list comes out exactly when the offset lies
      inside the data and is followed by exactly one count word and `count` items. */
  lemma ArrayDecoderAccepts(value: Data, offset: nat, count: nat)
    requires 0 < |value| <= MAX_INT
    requires offset == DecodeUInt(value)
    requires count == if offset < |value| then DecodeUInt(value[offset..]) else 0
    ensures (exists items :: DecodeArrayUInt(value) == Returns(items) && items != [])
       <==> offset < |value| && count > 0 && |value| - offset == 32 * (1 + count)
    ensures offset < |value| && |value| - offset == 32 * (1 + count) ==>
              DecodeArrayUInt(value).Returns? && |DecodeArrayUInt(value).value| == count
  {
    if offset < |value| && count > 0 && |value| - offset == 32 * (1 + count) {
      var items := DecodeArrayUInt(value).value;
      assert |items| == count;
      assert DecodeArrayUInt(value) == Returns(items) && items != [];
    }
  }

  /** How else it can end: it stops the process when the bytes after the offset are at most what their first word
      announces and hold no whole word, or announce more words than can be counted. */
  lemma ArrayDecoderOutcome(value: Data, offset: nat, rest: nat, count: nat)
    requires |value| <= MAX_INT && offset == DecodeUInt(value)
    requires rest == if offset < |value| then |value| - offset else 0
    requires count == if offset < |value| then DecodeUInt(value[offset..]) else 0
    ensures DecodeArrayUInt(value).Traps? <==>
            value != [] && 0 < rest <= 32 * (1 + count) && (rest < 32 || 32 * count > MAX_INT)
    ensures DecodeArrayUInt(value).Returns? && (rest == 0 || rest != 32 * (1 + count)) ==>
              DecodeArrayUInt(value) == Returns([])
  {}

  function AddressValues(addresses: seq<Address>): (r: seq<nat>)
    ensures |r| == |addresses|
    ensures forall i | 0 <= i < |r| :: r[i] == AddressValue(addresses[i])
  {
    seq(|addresses|, i requires 0 <= i < |addresses| => AddressValue(addresses[i]))
  }

  lemma AddressValuesAreWords(addresses: seq<Address>)
    requires AllValid(addresses)
    ensures AllWords(AddressValues(addresses))
  {
    hide AddressValue;
    forall i | 0 <= i < |addresses| ensures AddressValue(addresses[i]) < WORD_SPAN {
      AddressValueBound(addresses[i]);
    }
  }

  function AllNormalised(addresses: seq<Address>): (r: seq<Address>)
    ensures |r| == |addresses|
    ensures forall i | 0 <= i < |r| :: r[i] == Normalised(addresses[i])
  {
    seq(|addresses|, i requires 0 <= i < |addresses| => Normalised(addresses[i]))
  }

  function EncodeArrayAddress(addresses: seq<Address>): Data {
    EncodeArrayUInt(AddressValues(addresses))
  }

  function DecodeArrayAddress(value: Data): Outcome<seq<Address>> {
    var numbers :- DecodeArrayUInt(value);
    Returns(seq(|numbers|, i requires 0 <= i < |numbers| => AddressOf(numbers[i])))
  }

  lemma DecodeEncodedAddressArray(addresses: seq<Address>)
    requires AllValid(addresses) && |EncodeArrayAddress(addresses)| <= MAX_INT
    ensures DecodeArrayAddress(EncodeArrayAddress(addresses)) == Returns(AllNormalised(addresses))
  {
    hide DecodeArrayUInt, EncodeArrayUInt, AddressOf, Normalised, AddressValue;
    var numbers := AddressValues(addresses);
    AddressValuesAreWords(addresses);
    assert DecodeArrayUInt(EncodeArrayUInt(numbers)) == Returns(numbers) by { DecodeEncodedArray(numbers); }
    forall i | 0 <= i < |addresses| ensures AddressOf(numbers[i]) == Normalised(addresses[i]) {
      AddressOfAddressValue(addresses[i]);
    }
    var decoded := seq(|numbers|, i requires 0 <= i < |numbers| => AddressOf(numbers[i]));
    assert decoded == AllNormalised(addresses);
  }

  // ----- Re-encoding what was decoded -----

  lemma {:induction false} WordsRecovered(data: Data, values: seq<nat>)
    requires |data| == 32 * |values|
    requires forall i | 0 <= i < |values| :: values[i] == DecodeUInt(Slot(data, i))
    ensures EncodeTupleUInt(values) == data
  {
    hide EncodeUInt, DecodeUInt, Slot, EncodeTupleUInt, Flatten;
    var words := seq(|values|, i requires 0 <= i < |values| => Slot(data, i));
    WordsOfData(data, |values|);
    EncodeTupleIsWords(values);
    forall i | 0 <= i < |values| ensures EncodeUInt(values[i]) == Slot(data, i) {
      EncodeDecodedUInt(Slot(data, i));
    }
    assert Words(values) == words;
  }

  /** Decoded words are re-encoded to the same bytes exactly when there were no others. */
  lemma EncodeDecodedTuple(value: Data, count: nat, values: seq<nat>)
    requires DecodeTupleUInt(value, count) == Returns(values)
    ensures EncodeTupleUInt(values) == value <==> value == [] || |value| == 32 * count
  {
    hide DecodeUInt, Slot, EncodeTupleUInt;
    EncodeTupleIsWords(values);
    if |value| == 32 * count {
      WordsRecovered(value, values);
    }
  }

  /** One offset word, one count word, `count` items and nothing else. */
  predicate IsStandardArray(value: Data) {
    |value| >= 64 && DecodeUInt(value) == 32 && |value| == 64 + 32 * DecodeUInt(value[32..])
  }

  /** A decoded list is re-encoded to the same bytes exactly when they had the standard layout. */
  lemma EncodeDecodedArray(value: Data, values: seq<nat>)
    requires DecodeArrayUInt(value) == Returns(values)
    ensures EncodeArrayUInt(values) == value <==> IsStandardArray(value)
  {
    hide *;
    DecodedCount(value, values);
    if IsStandardArray(value) {
      ArrayRebuilt(value, values);
    }
    if EncodeArrayUInt(values) == value {
      ReadsAsArray(values, value);
    }
  }

  lemma ArrayRebuilt(value: Data, values: seq<nat>)
    requires |value| == 64 + 32 * |values| && DecodeUInt(value) == 32 && DecodeUInt(value[32..]) == |values|
    requires DecodeTupleUInt(value[64..], |values|) == Returns(values)
    ensures EncodeArrayUInt(values) == value
  {
    hide *;
    DecodedTuple(value[64..], |values|, values);
    WordsRecovered(value[64..], values);
    FirstWord(value);
    WordRecovered(value[..32], 32);
    FirstWord(value[32..]);
    assert value[32..][..32] == value[32..64];
    WordRecovered(value[32..64], |values|);
    ArrayOfParts(values, value[..32], value[32..64], value[64..]);
    assert value == value[..32] + value[32..64] + value[64..];
  }

  lemma ArrayOfParts(values: seq<nat>, offset: Data, length: Data, items: Data)
    requires EncodeUInt(32) == offset && EncodeUInt(|values|) == length && EncodeTupleUInt(values) == items
    ensures EncodeArrayUInt(values) == offset + length + items
  {
    hide EncodeUInt, EncodeTupleUInt;
  }

  lemma WordRecovered(word: Data, n: nat)
    requires |word| == 32 && DecodeUInt(word) == n
    ensures EncodeUInt(n) == word
  {
    EncodeDecodedUInt(word);
  }

  lemma DecodedTuple(value: Data, count: nat, values: seq<nat>)
    requires DecodeTupleUInt(value, count) == Returns(values) && |value| == 32 * count
    ensures |values| == count
    ensures forall i | 0 <= i < count :: values[i] == DecodeUInt(Slot(value, i))
  {}

  lemma DecodedCount(value: Data, values: seq<nat>)
    requires DecodeArrayUInt(value) == Returns(values)
    ensures |values| <= MAX_INT
    ensures IsStandardArray(value) ==>
              && |value| == 64 + 32 * |values| && DecodeUInt(value) == 32 && DecodeUInt(value[32..]) == |values|
              && DecodeTupleUInt(value[64..], |values|) == Returns(values)
  {
    hide DecodeUInt, Slot;
    if |value| >= 64 {
      assert value[32..][32..] == value[64..];
    }
  }

  lemma ReadsAsArray(values: seq<nat>, value: Data)
    requires value == EncodeArrayUInt(values) && |values| <= MAX_INT
    ensures IsStandardArray(value)
  {
    hide EncodeUInt, EncodeTupleUInt, ToNat;
    EncodeTupleIsWords(values);
    EncodedWord(32);
    EncodedWord(|values|);
    var rest := EncodeUInt(|values|) + EncodeTupleUInt(values);
    assert value == EncodeUInt(32) + rest && value[32..] == rest;
    DecodeFirstWord(EncodeUInt(32), rest);
    DecodeFirstWord(EncodeUInt(|values|), EncodeTupleUInt(values));
  }

  /** For addresses every item must also be below 2^160. */
  lemma EncodeDecodedAddressArray(value: Data, numbers: seq<nat>, addresses: seq<Address>)
    requires |value| <= MAX_INT && DecodeArrayUInt(value) == Returns(numbers)
    requires DecodeArrayAddress(value) == Returns(addresses)
    ensures EncodeArrayAddress(addresses) == value <==>
            IsStandardArray(value) && forall i | 0 <= i < |numbers| :: numbers[i] < ADDRESS_SPAN
  {
    hide DecodeArrayUInt, EncodeArrayUInt, AddressOf, AddressValue, IsStandardArray;
    var values := AddressValues(addresses);
    forall i | 0 <= i < |numbers|
      ensures addresses[i].Valid() && values[i] < ADDRESS_SPAN
      ensures numbers[i] < ADDRESS_SPAN ==> values[i] == numbers[i]
    {
      AddressOfValid(numbers[i]);
      AddressValueBound(addresses[i]);
    }
    if forall i | 0 <= i < |numbers| :: numbers[i] < ADDRESS_SPAN {
      assert values == numbers;
      EncodeDecodedArray(value, numbers);
    }
    if EncodeArrayAddress(addresses) == value {
      AddressValuesAreWords(addresses);
      DecodeEncodedArray(values);
      assert values == numbers;
      EncodeDecodedArray(value, numbers);
    }
  }

  // ----- Byte strings -----

  function WholeWords(count: nat): (r: nat)
    ensures count <= r < count + 32 && r % 32 == 0
  {
    if count % 32 == 0 then count else count + 32 - count % 32
  }

  function EncodeBytes(value: Data): (r: Data)
    ensures |r| == 32 + WholeWords(|value|)
  {
    EncodeUInt(|value|) + RightPadded(value, WholeWords(|value|))
  }

  function DecodeBytes(value: Data): Outcome<Data> {
    var count := DecodeUInt(value);
    var encoded := if |value| < 32 then [] else value[32..];
    if count > MAX_INT then Traps else Returns(Prefix(encoded, count))
  }

  /** Of any bytes, what follows the first word, as far as it goes and the first word asks. */
  lemma DecodeBytesMeaning(value: Data)
    ensures DecodeBytes(value).Traps? <==> DecodeUInt(value) > MAX_INT
    ensures DecodeBytes(value).Returns? ==>
              var count, body := DecodeUInt(value), if |value| < 32 then 0 else |value| - 32;
              var data := DecodeBytes(value).value;
              && |data| == (if count < body then count else body)
              && forall i | 0 <= i < |data| :: data[i] == value[32 + i]
  {
    hide DecodeUInt;
  }

  lemma DecodeEncodedBytes(value: Data, rest: Data)
    requires |value| <= MAX_INT
    ensures DecodeUInt(EncodeBytes(value) + rest) == |value|
    ensures DecodeBytes(EncodeBytes(value) + rest) == Returns(value)
  {
    EncodedWord(|value|);
    BytesOfWord(EncodeUInt(|value|), value, RightPadded(value, WholeWords(|value|)), rest);
  }

  lemma BytesOfWord(length: Data, value: Data, padded: Data, rest: Data)
    requires |length| == 32 && ToNat(length) == |value| <= MAX_INT
    requires value <= padded
    ensures DecodeUInt(length + padded + rest) == |value|
    ensures DecodeBytes(length + padded + rest) == Returns(value)
  {
    var encoded := length + padded + rest;
    assert encoded == length + (padded + rest);
    DecodeFirstWord(length, padded + rest);
    assert encoded[32..] == padded + rest;
    assert Prefix(padded + rest, |value|) == value;
  }

  /** A length word, that many bytes, zeroes to whole words and nothing else. */
  predicate IsStandardBytes(value: Data) {
    var count := DecodeUInt(value);
    |value| == 32 + WholeWords(count) && forall i | 32 + count <= i < |value| :: value[i] == 0
  }

  lemma {:induction false} AllZeroes(data: Data)
    requires forall i | 0 <= i < |data| :: data[i] == 0
    ensures data == Zeroes(|data|)
  {
    if data != [] {
      AllZeroes(data[..|data| - 1]);
    }
  }

  lemma {:induction false} ZeroesAt(count: nat, i: nat)
    requires i < count
    ensures Zeroes(count)[i] == 0
  {
    if i < count - 1 { ZeroesAt(count - 1, i); }
  }

  lemma PaddedBytes(value: Data, count: nat)
    requires |value| == WholeWords(count)
    requires forall i | count <= i < |value| :: value[i] == 0
    ensures RightPadded(value[..count], WholeWords(count)) == value
  {
    var padding := value[count..];
    AllZeroes(padding);
    assert value == value[..count] + padding;
  }

  /** Decoded bytes are re-encoded to the same ones exactly when they had the standard layout. */
  lemma EncodeDecodedBytes(value: Data, data: Data)
    requires DecodeBytes(value) == Returns(data)
    ensures EncodeBytes(data) == value <==> IsStandardBytes(value)
  {
    hide EncodeUInt, ToNat, RightPadded, WholeWords;
    var count := DecodeUInt(value);
    if IsStandardBytes(value) {
      var body := value[32..];
      assert forall i | count <= i < |body| :: body[i] == value[32 + i];
      PaddedBytes(body, count);
      assert Prefix(value, 32) == value[..32] && Prefix(value[..32], 32) == value[..32];
      WordRecovered(value[..32], count);
      assert value == value[..32] + body;
    }
    if EncodeBytes(data) == value {
      StandardBytes(data);
    }
  }

  /** Bytes after the last word, and after the padding, are dropped. */
  lemma TrailingByteIsDropped()
    ensures DecodeTupleUInt([1], 0) == Returns([]) && EncodeTupleUInt([]) != [1]
    ensures DecodeBytes(EncodeUInt(0) + [1]) == Returns([]) && EncodeBytes([]) != EncodeUInt(0) + [1]
  {
    hide EncodeUInt, DecodeUInt, ToNat;
    var value := EncodeUInt(0) + [1];
    EncodedWord(0);
    DecodeFirstWord(EncodeUInt(0), [1]);
    assert value[32..] == [1];
    EncodeTupleIsWords([]);
    assert DecodeTupleUInt([1], 0).value == [];
  }

  /** A list behind an unused word is accepted, and re-encoded without it. */
  lemma ShiftedListMoves()
    ensures var value := EncodeUInt(64) + EncodeUInt(0) + EncodeUInt(1) + EncodeUInt(5);
      DecodeArrayUInt(value) == Returns([5]) && EncodeArrayUInt([5]) != value
  {
    hide EncodeUInt, DecodeUInt, ToNat, EncodeArrayUInt, DecodeTupleUInt;
    var value := EncodeUInt(64) + EncodeUInt(0) + EncodeUInt(1) + EncodeUInt(5);
    var list := EncodeUInt(1) + EncodeUInt(5);
    assert value == EncodeUInt(64) + (EncodeUInt(0) + list) && value[64..] == list && list[32..] == EncodeUInt(5);
    EncodedWord(64);
    EncodedWord(1);
    DecodeFirstWord(EncodeUInt(64), EncodeUInt(0) + list);
    DecodeFirstWord(EncodeUInt(1), EncodeUInt(5));
    OneItem(5);
    EncodeDecodedArray(value, [5]);
  }

  lemma OneItem(n: nat)
    requires n < WORD_SPAN
    ensures DecodeTupleUInt(EncodeUInt(n), 1) == Returns([n])
  {
    hide EncodeUInt, DecodeUInt, DecodeTupleUInt, Flatten;
    DecodeEncodedTuple([n], []);
    EncodeTupleIsWords([n]);
    assert Words([n]) == [EncodeUInt(n)];
    FlattenOne(EncodeUInt(n));
    assert EncodeUInt(n) + [] == EncodeUInt(n);
  }

  lemma PaddedWithZeroes(data: Data, count: nat)
    ensures forall i | |data| <= i < |RightPadded(data, count)| :: RightPadded(data, count)[i] == 0
  {
    hide Zeroes;
    forall i | |data| <= i < |RightPadded(data, count)| ensures RightPadded(data, count)[i] == 0 {
      ZeroesAt(count - |data|, i - |data|);
    }
  }

  lemma StandardBytes(data: Data)
    requires |data| <= MAX_INT
    ensures IsStandardBytes(EncodeBytes(data)) && DecodeUInt(EncodeBytes(data)) == |data|
  {
    hide EncodeUInt, DecodeUInt, WholeWords, RightPadded;
    var value, padded := EncodeBytes(data), RightPadded(data, WholeWords(|data|));
    DecodeEncodedBytes(data, []);
    assert value + [] == value;
    PaddedWithZeroes(data, WholeWords(|data|));
    forall i | 32 + |data| <= i < |value| ensures value[i] == 0 {
      assert value[i] == padded[i - 32];
    }
  }

  // ----- Calls -----

  /** Hashing is a parameter: any function from the signature text to bytes. */
  type Hash = string -> Data

  function Method(hash: Hash, signature: string): Data {
    Prefix(hash(signature), 4)
  }

  function Invocation(hash: Hash, signature: string, args: seq<Data>): Data {
    Method(hash, signature) + Flatten(args)
  }
}
