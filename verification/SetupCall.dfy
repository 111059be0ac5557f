/** The `setup` call of a new Safe: MultisigWallet/MultisigWalletDomainModel/GnosisSafeContractProxy.swift. */
module SetupCall {
  import opened Outcomes
  import opened Bytes
  import opened Hex
  import opened AbiCodec
  import opened AbiReference

  const SIGNATURE := "setup(address[],uint256,address,bytes,address,uint256,address)"

  datatype SetupArguments = SetupArguments(
    owners: seq<Address>,
    threshold: nat,
    to: Address,
    data: Data,
    paymentToken: Address,
    payment: nat,
    paymentReceiver: Address) {

    predicate Valid() {
      AllValid(owners) && to.Valid() && paymentToken.Valid() && paymentReceiver.Valid()
    }
  }

  // ----- Encoding -----

  /** The seven argument words and the length word of the owner list. */
  function HeadWords(s: SetupArguments): (words: seq<Data>) {
    [ EncodeUInt(7 * 32),
      EncodeUInt(s.threshold),
      EncodeAddress(s.to),
      EncodeUInt(7 * 32 + 1 * 32 + |s.owners| * 32),
      EncodeAddress(s.paymentToken),
      EncodeUInt(s.payment),
      EncodeAddress(s.paymentReceiver),
      EncodeUInt(|s.owners|) ]
  }

  function OwnerWords(owners: seq<Address>): (words: seq<Data>)
    ensures |words| == |owners|
    ensures forall i | 0 <= i < |words| :: words[i] == EncodeAddress(owners[i])
  {
    seq(|owners|, i requires 0 <= i < |owners| => EncodeAddress(owners[i]))
  }

  /** Empty data is followed by one more zero word. */
  function EmptyDataFiller(data: Data): Data {
    if data == [] then EncodeUInt(0) else []
  }

  function Setup(hash: Hash, s: SetupArguments): Data {
    Invocation(hash, SIGNATURE, HeadWords(s) + OwnerWords(s.owners) + [EncodeBytes(s.data), EmptyDataFiller(s.data)])
  }

  // ----- Decoding -----

  /** The addresses in the first `count` words of a buffer. */
  function AddressesIn(buffer: Data, count: nat): (r: seq<Address>)
    requires 32 * count <= |buffer|
    ensures |r| == count
  {
    if count == 0 then [] else [DecodeAddress(buffer[..32])] + AddressesIn(buffer[32..], count - 1)
  }

  function OwnersAt(args: Data, offset: nat): Outcome<seq<Address>> {
    if offset > MAX_INT || offset >= |args| then Traps
    else
      var rest := args[offset..];
      var count := DecodeUInt(rest);
      if count > MAX_INT || |rest| < 32 * (1 + count) then Traps
      else Returns(AddressesIn(rest[32..], count))
  }

  function BytesAt(args: Data, offset: nat): Outcome<Data> {
    if offset > MAX_INT || offset >= |args| then Traps
    else
      var rest := args[offset..];
      if |rest| < 32 then Traps else DecodeBytes(rest)
  }

  function DecodeArguments(args: Data): Outcome<SetupArguments> {
    if |args| < 7 * 32 || DecodeUInt(Slot(args, 1)) > MAX_INT then Traps
    else
      var owners :- OwnersAt(args, DecodeUInt(Slot(args, 0)));
      var bytes :- BytesAt(args, DecodeUInt(Slot(args, 3)));
      Returns(SetupArguments(owners, DecodeUInt(Slot(args, 1)), DecodeAddress(Slot(args, 2)), bytes,
                             DecodeAddress(Slot(args, 4)), DecodeUInt(Slot(args, 5)), DecodeAddress(Slot(args, 6))))
  }

  /** What `decodeSetup` computes: the argument words by position, the list and the bytes by their offsets. */
  function DecodeSetup(hash: Hash, data: Data): Outcome<Option<SetupArguments>> {
    var selector := Method(hash, SIGNATURE);
    if !(selector <= data) then Returns(None)
    else
      var s :- DecodeArguments(data[|selector|..]);
      Returns(Some(s))
  }

  /** The owner loop: each round reads the first word of the buffer and removes it. */
  method TakeOwners(buffer: Data, count: nat) returns (r: Outcome<seq<Address>>)
    ensures r == if |buffer| < 32 * count then Traps else Returns(AddressesIn(buffer, count))
  {
    hide DecodeUInt, DecodeAddress;
    var input := buffer;
    var owners: seq<Address> := [];
    for i := 0 to count
      invariant |input| == |buffer| - 32 * i
      invariant |buffer| >= 32 * count ==> owners + AddressesIn(input, count - i) == AddressesIn(buffer, count)
    {
      var address := DecodeAddress(input);
      if |input| < 32 {
        return Traps;
      }
      FirstWord(input);
      input := input[32..];
      owners := owners + [address];
    }
    assert owners + AddressesIn(input, 0) == owners;
    return Returns(owners);
  }

  /** The decoder as written: it consumes one copy of the call word by word, and two more from the offsets. */
  method DecodeSetupCall(hash: Hash, data: Data) returns (r: Outcome<Option<SetupArguments>>)
    ensures r == DecodeSetup(hash, data)
  {
    hide DecodeUInt, DecodeAddress, OwnersAt, BytesAt, Method;
    var selector := Method(hash, SIGNATURE);
    if !(selector <= data) {
      return Returns(None);
    }
    var input := data[|selector|..];
    ghost var args := input;
    if |input| < 7 * 32 {
      return Traps;
    }
    assert input == args[32 * 0..];
    FirstWordIsSlot(args, 0);
    var addressArrayOffset := DecodeUInt(input);
    input := input[32..];
    assert input == args[32 * 1..];
    FirstWordIsSlot(args, 1);
    var threshold := DecodeUInt(input);
    input := input[32..];
    assert input == args[32 * 2..];
    FirstWordIsSlot(args, 2);
    var to := DecodeAddress(input);
    input := input[32..];
    assert input == args[32 * 3..];
    FirstWordIsSlot(args, 3);
    var dataOffset := DecodeUInt(input);
    input := input[32..];
    assert input == args[32 * 4..];
    FirstWordIsSlot(args, 4);
    var paymentToken := DecodeAddress(input);
    input := input[32..];
    assert input == args[32 * 5..];
    FirstWordIsSlot(args, 5);
    var payment := DecodeUInt(input);
    input := input[32..];
    assert input == args[32 * 6..];
    FirstWordIsSlot(args, 6);
    var paymentReceiver := DecodeAddress(input);
    input := input[32..];
    if threshold > MAX_INT {
      return Traps;
    }
    var owners := DecodeOwners(data[|selector|..], addressArrayOffset);
    if owners.Traps? {
      return Traps;
    }
    var bytes := DecodeData(data[|selector|..], dataOffset);
    if bytes.Traps? {
      return Traps;
    }
    return Returns(Some(SetupArguments(owners.value, threshold, to, bytes.value,
                                       paymentToken, payment, paymentReceiver)));
  }

  method DecodeOwners(args: Data, offset: nat) returns (r: Outcome<seq<Address>>)
    ensures r == OwnersAt(args, offset)
  {
    hide DecodeUInt, DecodeAddress, AddressesIn;
    if offset > MAX_INT || offset >= |args| {
      return Traps;
    }
    var addressArrayData := args[offset..];
    var count := DecodeUInt(addressArrayData);
    if count > MAX_INT || |addressArrayData| < 32 {
      return Traps;
    }
    addressArrayData := addressArrayData[32..];
    r := TakeOwners(addressArrayData, count);
  }

  method DecodeData(args: Data, offset: nat) returns (r: Outcome<Data>)
    ensures r == BytesAt(args, offset)
  {
    if offset > MAX_INT || offset >= |args| {
      return Traps;
    }
    var dataArgumentData := args[offset..];
    var count := DecodeUInt(dataArgumentData);
    if count > MAX_INT || |dataArgumentData| < 32 {
      return Traps;
    }
    dataArgumentData := dataArgumentData[32..];
    return Returns(Prefix(dataArgumentData, count));
  }

  // ----- Round trip -----

  /** What decoding can recover: addresses in normalised form, the payment modulo 2^256. */
  function Recovered(s: SetupArguments): SetupArguments {
    s.(owners := AllNormalised(s.owners), to := Normalised(s.to), paymentToken := Normalised(s.paymentToken),
       payment := s.payment % WORD_SPAN, paymentReceiver := Normalised(s.paymentReceiver))
  }

  /** How the argument bytes of a call are laid out, with anything after the last of them. */
  ghost predicate IsLayout(s: SetupArguments, args: Data, rest: Data) {
    var count := |s.owners|;
    && |args| >= 32 * (8 + count)
    && (forall i | 0 <= i < 8 :: Slot(args, i) == HeadWords(s)[i])
    && args[32 * 8..32 * (8 + count)] == Flatten(OwnerWords(s.owners))
    && args[32 * (8 + count)..] == EncodeBytes(s.data) + rest
  }

  lemma SetupBytes(hash: Hash, s: SetupArguments)
    ensures Setup(hash, s) == Method(hash, SIGNATURE) + (ArgumentBytes(s) + EmptyDataFiller(s.data))
  {
    hide EncodeBytes, EmptyDataFiller, HeadWords, OwnerWords, Method;
    var last := [EncodeBytes(s.data), EmptyDataFiller(s.data)];
    FlattenConcat(HeadWords(s) + OwnerWords(s.owners), last);
    FlattenConcat(HeadWords(s), OwnerWords(s.owners));
    FlattenConcat([EncodeBytes(s.data)], [EmptyDataFiller(s.data)]);
    FlattenOne(EncodeBytes(s.data));
    FlattenOne(EmptyDataFiller(s.data));
    assert last == [EncodeBytes(s.data)] + [EmptyDataFiller(s.data)];
  }

  lemma HeadWordsAreWords(s: SetupArguments)
    ensures |HeadWords(s)| == 8
    ensures forall i | 0 <= i < 8 :: |HeadWords(s)[i]| == 32
  {
    hide EncodeUInt, EncodeAddress;
  }

  lemma OwnerWordsAreWords(owners: seq<Address>)
    ensures |Flatten(OwnerWords(owners))| == 32 * |owners|
  {
    hide EncodeAddress, Flatten, Slot;
    FlattenSlots(OwnerWords(owners), []);
  }

  lemma SetupLayout(s: SetupArguments, heads: Data, owners: Data, last: Data, rest: Data)
    requires heads == Flatten(HeadWords(s)) && owners == Flatten(OwnerWords(s.owners))
    requires last == EncodeBytes(s.data) + rest
    ensures IsLayout(s, heads + owners + last, rest)
  {
    hide EncodeBytes, HeadWords, OwnerWords, Flatten, Slot;
    HeadWordsAreWords(s);
    OwnerWordsAreWords(s.owners);
    FlattenSlots(HeadWords(s), owners + last);
    assert heads + owners + last == heads + (owners + last);
  }

  lemma {:induction false} AddressesRecovered(buffer: Data, owners: seq<Address>)
    requires AllValid(owners) && 32 * |owners| <= |buffer|
    requires buffer[..32 * |owners|] == Flatten(OwnerWords(owners))
    ensures AddressesIn(buffer, |owners|) == AllNormalised(owners)
  {
    hide DecodeAddress, EncodeAddress, Normalised, Flatten, AllValid, OwnerWords, AllNormalised;
    if owners != [] {
      var word, rest := EncodeAddress(owners[0]), Flatten(OwnerWords(owners[1..]));
      ValidRest(owners);
      OwnersSplit(owners);
      TakeWord(buffer, word, rest, |owners| - 1);
      AddressesRecovered(buffer[32..], owners[1..]);
      ReadAddress(word, owners[0]);
      NormalisedCons(owners);
    }
  }

  lemma TakeWord(buffer: Data, word: Data, rest: Data, count: nat)
    requires |word| == 32 && |rest| == 32 * count && 32 * (count + 1) <= |buffer|
    requires buffer[..32 * (count + 1)] == word + rest
    ensures buffer[..32] == word && buffer[32..][..32 * count] == rest
  {
    assert (word + rest)[..32] == word && (word + rest)[32..] == rest;
    assert buffer[..32] == buffer[..32 * (count + 1)][..32];
    assert buffer[32..][..32 * count] == buffer[..32 * (count + 1)][32..];
  }

  lemma NormalisedCons(owners: seq<Address>)
    requires owners != []
    ensures AllNormalised(owners) == [Normalised(owners[0])] + AllNormalised(owners[1..])
  {
    hide Normalised;
  }

  lemma ValidRest(owners: seq<Address>)
    requires AllValid(owners) && owners != []
    ensures owners[0].Valid() && AllValid(owners[1..])
  {}

  lemma OwnersSplit(owners: seq<Address>)
    requires owners != []
    ensures Flatten(OwnerWords(owners)) == EncodeAddress(owners[0]) + Flatten(OwnerWords(owners[1..]))
    ensures |Flatten(OwnerWords(owners[1..]))| == 32 * (|owners| - 1)
  {
    hide EncodeAddress, Flatten;
    OwnerWordsAreWords(owners[1..]);
    assert OwnerWords(owners) == [EncodeAddress(owners[0])] + OwnerWords(owners[1..]);
    FlattenConcat([EncodeAddress(owners[0])], OwnerWords(owners[1..]));
    FlattenOne(EncodeAddress(owners[0]));
  }

  /** The offset in the first argument lands on the owner count. */
  lemma OwnersRecovered(s: SetupArguments, args: Data, rest: Data)
    requires AllValid(s.owners) && IsLayout(s, args, rest) && |args| <= MAX_INT
    ensures OwnersAt(args, 7 * 32) == Returns(AllNormalised(s.owners))
  {
    hide *;
    CountRecovered(s, args, rest);
    OwnerBytes(s, args, rest);
    OwnersAtCount(args, 7 * 32, |s.owners|);
    AddressesRecovered(args[32 * 8..], s.owners);
  }

  lemma OwnersAtCount(args: Data, offset: nat, count: nat)
    requires offset + 32 * (1 + count) <= |args| <= MAX_INT
    requires DecodeUInt(args[offset..]) == count
    ensures OwnersAt(args, offset) == Returns(AddressesIn(args[offset + 32..], count))
  {
    hide DecodeUInt, AddressesIn;
    assert args[offset..][32..] == args[offset + 32..];
  }

  lemma OwnerBytes(s: SetupArguments, args: Data, rest: Data)
    requires IsLayout(s, args, rest)
    ensures |args| >= 32 * (8 + |s.owners|)
    ensures args[32 * 8..][..32 * |s.owners|] == Flatten(OwnerWords(s.owners))
  {
    hide EncodeBytes, HeadWords, OwnerWords, Flatten, Slot;
  }

  lemma CountRecovered(s: SetupArguments, args: Data, rest: Data)
    requires IsLayout(s, args, rest) && |args| <= MAX_INT
    ensures |args| >= 32 * (8 + |s.owners|)
    ensures DecodeUInt(args[7 * 32..]) == |s.owners|
  {
    hide EncodeUInt, DecodeUInt, HeadWords, EncodeBytes, OwnerWords, Flatten;
    FirstWordIsSlot(args, 7);
    HeadSlots(s, args, rest);
    ReadWord(Slot(args, 7), |s.owners|);
  }

  /** The bytes of the arguments up to the end of the data. */
  function ArgumentBytes(s: SetupArguments): Data {
    Flatten(HeadWords(s)) + Flatten(OwnerWords(s.owners)) + EncodeBytes(s.data)
  }

  /** The decoder accepts anything after the data. */
  lemma DecodeWithRest(hash: Hash, s: SetupArguments, rest: Data)
    requires s.Valid() && |ArgumentBytes(s) + rest| <= MAX_INT && s.threshold <= MAX_INT
    ensures DecodeSetup(hash, Method(hash, SIGNATURE) + (ArgumentBytes(s) + rest)) == Returns(Some(Recovered(s)))
  {
    hide *;
    ArgumentsLayout(s, rest);
    ArgumentsRecovered(s, ArgumentBytes(s) + rest, rest);
    DecodeCall(hash, ArgumentBytes(s) + rest, Recovered(s));
  }

  lemma ArgumentsLayout(s: SetupArguments, rest: Data)
    ensures IsLayout(s, ArgumentBytes(s) + rest, rest)
  {
    hide HeadWords, OwnerWords, Flatten, EncodeBytes, IsLayout;
    var heads, owners, bytes := Flatten(HeadWords(s)), Flatten(OwnerWords(s.owners)), EncodeBytes(s.data);
    SetupLayout(s, heads, owners, bytes + rest, rest);
    assert heads + owners + bytes + rest == heads + owners + (bytes + rest);
  }

  lemma DecodeCall(hash: Hash, args: Data, s: SetupArguments)
    requires DecodeArguments(args) == Returns(s)
    ensures DecodeSetup(hash, Method(hash, SIGNATURE) + args) == Returns(Some(s))
  {
    hide DecodeArguments, Method;
    var data := Method(hash, SIGNATURE) + args;
    assert data[|Method(hash, SIGNATURE)|..] == args;
  }

  /** The decoder follows the two offsets wherever they lead. */
  lemma DecodeByOffsets(
    hash: Hash, args: Data, s: SetupArguments, listAt: nat, bytesAt: nat, afterList: Data, afterBytes: Data)
    requires s.Valid() && 7 * 32 <= |args| <= MAX_INT && s.threshold <= MAX_INT
    requires Slot(args, 0) == EncodeUInt(listAt) && Slot(args, 1) == EncodeUInt(s.threshold)
    requires Slot(args, 2) == EncodeAddress(s.to) && Slot(args, 3) == EncodeUInt(bytesAt)
    requires Slot(args, 4) == EncodeAddress(s.paymentToken) && Slot(args, 5) == EncodeUInt(s.payment)
    requires Slot(args, 6) == EncodeAddress(s.paymentReceiver)
    requires listAt <= |args| && bytesAt <= |args|
    requires args[listAt..] == EncodeUInt(|s.owners|) + Flatten(OwnerWords(s.owners)) + afterList
    requires args[bytesAt..] == EncodeBytes(s.data) + afterBytes
    ensures DecodeSetup(hash, Method(hash, SIGNATURE) + args) == Returns(Some(Recovered(s)))
  {
    hide *;
    ValidParts(s);
    SmallAreWords(args, s.threshold);
    ReadWord(Slot(args, 0), listAt);
    ReadWord(Slot(args, 1), s.threshold);
    ReadAddress(Slot(args, 2), s.to);
    ReadWord(Slot(args, 3), bytesAt);
    ReadAddress(Slot(args, 4), s.paymentToken);
    ReadWord(Slot(args, 5), s.payment);
    ReadAddress(Slot(args, 6), s.paymentReceiver);
    ListFollowed(args, listAt, s.owners, afterList);
    DataFollowed(args, bytesAt, s.data, afterBytes);
    ArgumentsFromSlots(s, args, AllNormalised(s.owners));
    DecodeCall(hash, args, Recovered(s));
  }

  lemma SmallAreWords(args: Data, n: nat)
    requires |args| <= MAX_INT && n <= MAX_INT
    ensures |args| < WORD_SPAN && n < WORD_SPAN
  {}

  lemma ListFollowed(args: Data, offset: nat, owners: seq<Address>, rest: Data)
    requires AllValid(owners) && offset <= |args| <= MAX_INT
    requires args[offset..] == EncodeUInt(|owners|) + Flatten(OwnerWords(owners)) + rest
    ensures OwnersAt(args, offset) == Returns(AllNormalised(owners))
  {
    hide *;
    OwnerWordsAreWords(owners);
    var count, words := EncodeUInt(|owners|), Flatten(OwnerWords(owners));
    assert args[offset..] == count + (words + rest);
    SmallAreWords(args, |owners|);
    EncodedWord(|owners|);
    DecodeFirstWord(count, words + rest);
    OwnersAtCount(args, offset, |owners|);
    assert args[offset + 32..] == words + rest;
    AddressesRecovered(args[offset + 32..], owners);
  }

  lemma DataFollowed(args: Data, offset: nat, data: Data, rest: Data)
    requires offset <= |args| <= MAX_INT && args[offset..] == EncodeBytes(data) + rest
    ensures BytesAt(args, offset) == Returns(data)
  {
    hide DecodeBytes, EncodeUInt, DecodeUInt, RightPadded;
    DecodeEncodedBytes(data, rest);
  }

  /** The word at an offset, if there is one, and as many more as it says are there. */
  predicate ListFits(args: Data, offset: nat) {
    offset < |args| && offset + 32 * (1 + DecodeUInt(args[offset..])) <= |args|
  }

  /** The word at an offset is there, and is a machine integer. */
  predicate LengthFits(args: Data, offset: nat) {
    offset + 32 <= |args| && DecodeUInt(args[offset..]) <= MAX_INT
  }

  /** Another selector is no `setup` call; a call too short for its words or offsets stops the process. */
  lemma DecodeSetupOutcome(hash: Hash, data: Data)
    requires |data| <= MAX_INT
    ensures var head := Selector(hash("setup(address[],uint256,address,bytes,address,uint256,address)"));
      && (DecodeSetup(hash, data) == Returns(None) <==> !(head <= data))
      && (DecodeSetup(hash, data).Traps? <==>
            && head <= data
            && var args := data[|head|..];
               || |args| < 7 * 32 || DecodeUInt(Slot(args, 1)) > MAX_INT
               || !ListFits(args, DecodeUInt(Slot(args, 0))) || !LengthFits(args, DecodeUInt(Slot(args, 3))))
  {
    hide DecodeUInt, DecodeAddress, AddressesIn, Method, Slot;
    MethodConforms(hash, SIGNATURE);
  }

  /** Decoding an encoded `setup` call gives its arguments back. */
  lemma DecodeEncodedSetup(hash: Hash, s: SetupArguments)
    requires s.Valid() && |Setup(hash, s)| <= MAX_INT && s.threshold <= MAX_INT
    ensures DecodeSetup(hash, Setup(hash, s)) == Returns(Some(Recovered(s)))
  {
    hide DecodeSetup, Setup, Method, ArgumentBytes, EmptyDataFiller, Recovered;
    SetupBytes(hash, s);
    DecodeWithRest(hash, s, EmptyDataFiller(s.data));
  }

  lemma HeadSlots(s: SetupArguments, args: Data, rest: Data)
    requires IsLayout(s, args, rest)
    ensures Slot(args, 0) == EncodeUInt(7 * 32)
    ensures Slot(args, 1) == EncodeUInt(s.threshold)
    ensures Slot(args, 2) == EncodeAddress(s.to)
    ensures Slot(args, 3) == EncodeUInt(7 * 32 + 1 * 32 + |s.owners| * 32)
    ensures Slot(args, 4) == EncodeAddress(s.paymentToken)
    ensures Slot(args, 5) == EncodeUInt(s.payment)
    ensures Slot(args, 6) == EncodeAddress(s.paymentReceiver)
    ensures Slot(args, 7) == EncodeUInt(|s.owners|)
  {
    hide EncodeUInt, EncodeAddress, EncodeBytes, Slot, OwnerWords, Flatten;
  }

  lemma BytesRecovered(s: SetupArguments, args: Data, rest: Data)
    requires IsLayout(s, args, rest) && |args| <= MAX_INT
    ensures BytesAt(args, 7 * 32 + 1 * 32 + |s.owners| * 32) == Returns(s.data)
  {
    hide EncodeBytes, DecodeBytes, HeadWords, OwnerWords, Flatten, Slot;
    DecodeEncodedBytes(s.data, rest);
  }

  lemma ArgumentsFromSlots(s: SetupArguments, args: Data, owners: seq<Address>)
    requires |args| >= 7 * 32
    requires OwnersAt(args, DecodeUInt(Slot(args, 0))) == Returns(owners)
    requires DecodeUInt(Slot(args, 1)) == s.threshold <= MAX_INT
    requires DecodeAddress(Slot(args, 2)) == Normalised(s.to)
    requires BytesAt(args, DecodeUInt(Slot(args, 3))) == Returns(s.data)
    requires DecodeAddress(Slot(args, 4)) == Normalised(s.paymentToken)
    requires DecodeUInt(Slot(args, 5)) == s.payment % WORD_SPAN
    requires DecodeAddress(Slot(args, 6)) == Normalised(s.paymentReceiver)
    requires owners == AllNormalised(s.owners)
    ensures DecodeArguments(args) == Returns(Recovered(s))
  {
    hide DecodeUInt, DecodeAddress, Normalised, OwnersAt, BytesAt, AllNormalised, Slot;
  }

  lemma ArgumentsRecovered(s: SetupArguments, args: Data, rest: Data)
    requires s.Valid() && IsLayout(s, args, rest) && |args| <= MAX_INT && s.threshold <= MAX_INT
    ensures DecodeArguments(args) == Returns(Recovered(s))
  {
    hide *;
    ValidParts(s);
    LayoutBounds(s, args, rest);
    HeadSlots(s, args, rest);
    ReadWord(Slot(args, 0), 7 * 32);
    ReadWord(Slot(args, 1), s.threshold);
    ReadAddress(Slot(args, 2), s.to);
    ReadWord(Slot(args, 3), 7 * 32 + 1 * 32 + |s.owners| * 32);
    ReadAddress(Slot(args, 4), s.paymentToken);
    ReadWord(Slot(args, 5), s.payment);
    ReadAddress(Slot(args, 6), s.paymentReceiver);
    OwnersRecovered(s, args, rest);
    BytesRecovered(s, args, rest);
    ArgumentsFromSlots(s, args, AllNormalised(s.owners));
  }

  lemma ValidParts(s: SetupArguments)
    requires s.Valid()
    ensures AllValid(s.owners) && s.to.Valid() && s.paymentToken.Valid() && s.paymentReceiver.Valid()
  {}

  lemma LayoutBounds(s: SetupArguments, args: Data, rest: Data)
    requires IsLayout(s, args, rest) && |args| <= MAX_INT && s.threshold <= MAX_INT
    ensures |args| >= 7 * 32 + 1 * 32 + |s.owners| * 32
    ensures |args| < WORD_SPAN && s.threshold < WORD_SPAN
  {
    hide HeadWords, OwnerWords, Flatten, EncodeBytes, Slot;
  }

  // ----- Conformance -----

  function SetupTuple(s: SetupArguments): AbiTuple {
    Member(UintArray(AddressValues(s.owners)),
    Member(Uint(s.threshold),
    Member(Uint(AddressValue(s.to)),
    Member(DynamicBytes(s.data),
    Member(Uint(AddressValue(s.paymentToken)),
    Member(Uint(s.payment),
    Member(Uint(AddressValue(s.paymentReceiver)), End)))))))
  }

  lemma ArgumentsConform(s: SetupArguments)
    ensures ArgumentBytes(s) == EncTuple(SetupTuple(s))
  {
    hide HeadWords, OwnerWords, EncodeBytes, Flatten, Heads, Tails, Enc, SetupTuple, Count, BigEndian, EncItems;
    OwnersConform(s.owners);
    EncodeBytesConforms(s.data);
    HeadsConform(s);
    TailsConform(s);
    Regroup(Heads(SetupTuple(s), 32 * Count(SetupTuple(s))), BigEndian(|s.owners|, 32),
            EncItems(AddressValues(s.owners)), Enc(DynamicBytes(s.data)));
  }

  /** The hand-computed offsets give the standard layout, up to the filler after empty data. */
  lemma SetupConforms(hash: Hash, s: SetupArguments)
    ensures Setup(hash, s) ==
            Selector(hash("setup(address[],uint256,address,bytes,address,uint256,address)")) +
            EncTuple(SetupTuple(s)) + (if s.data == [] then Zeroes(32) else [])
  {
    hide Setup, ArgumentBytes, Method, EncTuple, SetupTuple, EncodeUInt;
    MethodConforms(hash, SIGNATURE);
    ZeroWord();
    SetupBytes(hash, s);
    ArgumentsConform(s);
  }

  lemma Regroup(h: Data, b: Data, o: Data, e: Data)
    ensures ((h + b) + o) + e == h + (b + o + e)
  {}

  lemma OwnersConform(owners: seq<Address>)
    ensures Flatten(OwnerWords(owners)) == EncItems(AddressValues(owners))
  {
    assert OwnerWords(owners) == Words(AddressValues(owners));
    EncodeTupleIsWords(AddressValues(owners));
    EncodeTupleConforms(AddressValues(owners));
  }

  lemma FlattenEight(w: seq<Data>)
    requires |w| == 8
    ensures Flatten(w) == w[0] + (w[1] + (w[2] + (w[3] + (w[4] + (w[5] + (w[6] + w[7]))))))
  {
    var a, b := w[..4], w[4..];
    assert w == a + b;
    FlattenConcat(a, b);
    FlattenFour(a);
    FlattenFour(b);
  }

  lemma FlattenFour(w: seq<Data>)
    requires |w| == 4
    ensures Flatten(w) == w[0] + (w[1] + (w[2] + w[3]))
  {
    assert w[..3][..2] == w[..2] && w[..2][..1] == w[..1] && w[..1][..0] == [];
    assert Flatten(w[..1]) == w[0];
    assert Flatten(w[..2]) == w[0] + w[1];
    assert Flatten(w[..3]) == w[0] + w[1] + w[2];
  }

  lemma HeadsConform(s: SetupArguments)
    ensures Flatten(HeadWords(s)) == Heads(SetupTuple(s), 32 * Count(SetupTuple(s))) + BigEndian(|s.owners|, 32)
  {
    hide BigEndian, Flatten, Heads, HeadWords, SetupTuple;
    var w := HeadWords(s);
    HeadWordsConform(s);
    FlattenEight(w);
    HeadsUnfold(s);
    MoveLast(w[0], w[1], w[2], w[3], w[4], w[5], w[6], w[7]);
  }

  lemma MoveLast(a: Data, b: Data, c: Data, d: Data, e: Data, f: Data, g: Data, h: Data)
    ensures a + (b + (c + (d + (e + (f + (g + h)))))) == (a + (b + (c + (d + (e + (f + g)))))) + h
  {
    var t := d + (e + (f + g));
    assert d + (e + (f + (g + h))) == t + h;
    assert a + (b + (c + (t + h))) == (a + (b + (c + t))) + h;
  }

  lemma HeadWordsConform(s: SetupArguments)
    ensures HeadWords(s) == [
      BigEndian(7 * 32, 32), BigEndian(s.threshold, 32), BigEndian(AddressValue(s.to), 32),
      BigEndian(7 * 32 + 1 * 32 + |s.owners| * 32, 32), BigEndian(AddressValue(s.paymentToken), 32),
      BigEndian(s.payment, 32), BigEndian(AddressValue(s.paymentReceiver), 32), BigEndian(|s.owners|, 32)]
  {
    hide EncodeUInt, BigEndian, AddressValue;
    EncodeUIntConforms(7 * 32);
    EncodeUIntConforms(s.threshold);
    EncodeUIntConforms(AddressValue(s.to));
    EncodeUIntConforms(7 * 32 + 1 * 32 + |s.owners| * 32);
    EncodeUIntConforms(AddressValue(s.paymentToken));
    EncodeUIntConforms(s.payment);
    EncodeUIntConforms(AddressValue(s.paymentReceiver));
    EncodeUIntConforms(|s.owners|);
  }

  /** The heads of the seven arguments, the two offsets worked out. */
  lemma HeadsUnfold(s: SetupArguments)
    ensures Heads(SetupTuple(s), 32 * Count(SetupTuple(s))) ==
      BigEndian(7 * 32, 32) + (BigEndian(s.threshold, 32) + (BigEndian(AddressValue(s.to), 32) +
      (BigEndian(7 * 32 + 1 * 32 + |s.owners| * 32, 32) + (BigEndian(AddressValue(s.paymentToken), 32) +
      (BigEndian(s.payment, 32) + BigEndian(AddressValue(s.paymentReceiver), 32))))))
  {
    hide BigEndian, AddressValue, EncItems, PadRight;
    var list := UintArray(AddressValues(s.owners));
    var bytes := DynamicBytes(s.data);
    var afterList := 224 + |Tail(list)|;
    assert afterList == 7 * 32 + 1 * 32 + |s.owners| * 32;
    var afterBytes := afterList + |Tail(bytes)|;
    var t1 := SetupTuple(s).rest;
    var t2 := t1.rest;
    var t3 := t2.rest;
    var t4 := t3.rest;
    var t5 := t4.rest;
    var t6 := t5.rest;
    assert Count(t6) == 1 && Count(t4) == 3 && Count(t2) == 5 && Count(SetupTuple(s)) == 7;
    assert Heads(t6, afterBytes) == Enc(t6.value) by { assert Enc(t6.value) + [] == Enc(t6.value); }
    assert Heads(t5, afterBytes) == Enc(t5.value) + Heads(t6, afterBytes);
    assert Heads(t4, afterBytes) == Enc(t4.value) + Heads(t5, afterBytes);
    assert Heads(t3, afterList) == BigEndian(afterList, 32) + Heads(t4, afterBytes);
    assert Heads(t2, afterList) == Enc(t2.value) + Heads(t3, afterList);
    assert Heads(t1, afterList) == Enc(t1.value) + Heads(t2, afterList);
    assert Heads(SetupTuple(s), 224) == BigEndian(224, 32) + Heads(t1, afterList);
  }

  lemma TailsConform(s: SetupArguments)
    ensures Tails(SetupTuple(s)) ==
            BigEndian(|s.owners|, 32) + EncItems(AddressValues(s.owners)) + Enc(DynamicBytes(s.data))
  {
    hide BigEndian, EncItems, PadRight, AddressValue;
    var t6 := SetupTuple(s).rest.rest.rest.rest.rest.rest;
    var t4 := SetupTuple(s).rest.rest.rest.rest;
    var t2 := SetupTuple(s).rest.rest;
    assert Tails(t6) == [];
    assert Tails(t4) == [];
    assert Tails(t2) == Enc(DynamicBytes(s.data)) + [];
  }

  // ----- Re-encoding -----

  /** Length word, data, zeroes to whole words, one more zero word for empty data, and nothing else. */
  predicate IsStandardTail(tail: Data) {
    var count := DecodeUInt(tail);
    && |tail| == 32 + (if count == 0 then 32 else WholeWords(count))
    && forall i | 32 + count <= i < |tail| :: tail[i] == 0
  }

  /** The argument bytes of a call with `n` owners as `setup` itself would lay them out. */
  predicate IsStandardSetup(args: Data, n: nat) {
    && |args| >= 32 * (8 + n)
    && DecodeUInt(Slot(args, 0)) == 7 * 32 && DecodeUInt(Slot(args, 3)) == 7 * 32 + 1 * 32 + n * 32
    && DecodeUInt(Slot(args, 2)) < ADDRESS_SPAN && DecodeUInt(Slot(args, 4)) < ADDRESS_SPAN
    && DecodeUInt(Slot(args, 6)) < ADDRESS_SPAN
    && (forall k | 8 <= k < 8 + n :: DecodeUInt(Slot(args, k)) < ADDRESS_SPAN)
    && IsStandardTail(args[32 * (8 + n)..])
  }

  lemma {:induction false} AddressesByWord(buffer: Data, count: nat)
    requires 32 * count <= |buffer|
    ensures forall i | 0 <= i < count :: AddressesIn(buffer, count)[i] == DecodeAddress(Slot(buffer, i))
  {
    hide DecodeAddress;
    if count > 0 {
      AddressesByWord(buffer[32..], count - 1);
      assert forall i | 1 <= i < count :: Slot(buffer, i) == Slot(buffer[32..], i - 1);
      assert Slot(buffer, 0) == buffer[..32];
    }
  }

  lemma DecodedArguments(args: Data, s: SetupArguments)
    requires DecodeArguments(args) == Returns(s)
    ensures |args| >= 7 * 32
    ensures OwnersAt(args, DecodeUInt(Slot(args, 0))) == Returns(s.owners)
    ensures BytesAt(args, DecodeUInt(Slot(args, 3))) == Returns(s.data)
    ensures s.threshold == DecodeUInt(Slot(args, 1)) && s.payment == DecodeUInt(Slot(args, 5))
    ensures s.to == DecodeAddress(Slot(args, 2)) && s.paymentToken == DecodeAddress(Slot(args, 4))
    ensures s.paymentReceiver == DecodeAddress(Slot(args, 6))
  {
    hide DecodeUInt, DecodeAddress, OwnersAt, BytesAt, Slot;
  }

  lemma DecodedOwners(args: Data, owners: seq<Address>)
    requires OwnersAt(args, 7 * 32) == Returns(owners)
    ensures |args| >= 32 * (8 + |owners|) && DecodeUInt(Slot(args, 7)) == |owners|
    ensures forall i | 0 <= i < |owners| :: owners[i] == DecodeAddress(Slot(args, 8 + i))
  {
    hide DecodeUInt, DecodeAddress, AddressesIn;
    FirstWordIsSlot(args, 7);
    var buffer := args[7 * 32..][32..];
    AddressesByWord(buffer, |owners|);
    assert forall i | 0 <= i < |owners| :: Slot(buffer, i) == Slot(args, 8 + i);
  }

  lemma DecodedIsValid(word: Data)
    ensures DecodeAddress(word).Valid()
  {
    AddressOfValid(DecodeUInt(word));
  }

  lemma {:induction false} ConsecutiveWords(args: Data, from: nat, words: seq<Data>)
    requires 32 * (from + |words|) <= |args|
    requires forall i | 0 <= i < |words| :: words[i] == Slot(args, from + i)
    ensures Flatten(words) == args[32 * from..32 * (from + |words|)]
  {
    hide Flatten;
    var part := args[32 * from..32 * (from + |words|)];
    WordsOfData(part, |words|);
    assert forall i | 0 <= i < |words| :: Slot(part, i) == Slot(args, from + i);
    assert words == seq(|words|, i requires 0 <= i < |words| => Slot(part, i));
  }

  /** Word by word, a call laid out as `setup` does is rebuilt. */
  lemma HeadsRebuilt(args: Data, s: SetupArguments)
    requires DecodeArguments(args) == Returns(s) && IsStandardSetup(args, |s.owners|)
    ensures Flatten(HeadWords(s)) == args[..32 * 8]
    ensures Flatten(OwnerWords(s.owners)) == args[32 * 8..32 * (8 + |s.owners|)]
  {
    hide DecodeArguments, OwnersAt, BytesAt, EncodeUInt, DecodeUInt, EncodeAddress, DecodeAddress, Slot, Flatten,
         IsStandardTail;
    DecodedArguments(args, s);
    DecodedOwners(args, s.owners);
    HeadsMatch(args, s);
    ConsecutiveWords(args, 0, HeadWords(s));
    forall i | 0 <= i < |s.owners| ensures EncodeAddress(s.owners[i]) == Slot(args, 8 + i) {
      EncodeDecodedAddress(Slot(args, 8 + i));
    }
    ConsecutiveWords(args, 8, OwnerWords(s.owners));
  }

  lemma HeadsMatch(args: Data, s: SetupArguments)
    requires |args| >= 32 * 8 && IsStandardSetup(args, |s.owners|)
    requires s.threshold == DecodeUInt(Slot(args, 1)) && s.payment == DecodeUInt(Slot(args, 5))
    requires s.to == DecodeAddress(Slot(args, 2)) && s.paymentToken == DecodeAddress(Slot(args, 4))
    requires s.paymentReceiver == DecodeAddress(Slot(args, 6)) && |s.owners| == DecodeUInt(Slot(args, 7))
    ensures forall i | 0 <= i < |HeadWords(s)| :: HeadWords(s)[i] == Slot(args, i)
  {
    hide EncodeUInt, DecodeUInt, EncodeAddress, DecodeAddress, Slot, IsStandardTail;
    WordRecovered(Slot(args, 0), 7 * 32);
    EncodeDecodedUInt(Slot(args, 1));
    EncodeDecodedAddress(Slot(args, 2));
    WordRecovered(Slot(args, 3), 7 * 32 + 1 * 32 + |s.owners| * 32);
    EncodeDecodedAddress(Slot(args, 4));
    EncodeDecodedUInt(Slot(args, 5));
    EncodeDecodedAddress(Slot(args, 6));
    EncodeDecodedUInt(Slot(args, 7));
  }

  lemma EmptyTail(tail: Data)
    ensures IsStandardTail(tail) && DecodeUInt(tail) == 0 <==> tail == EncodeUInt(0) + EncodeUInt(0)
  {
    hide *;
    if IsStandardTail(tail) && DecodeUInt(tail) == 0 {
      EmptyTailRebuilt(tail);
    }
    if tail == EncodeUInt(0) + EncodeUInt(0) {
      EmptyTailIsStandard(tail);
    }
  }

  lemma EmptyTailRebuilt(tail: Data)
    requires IsStandardTail(tail) && DecodeUInt(tail) == 0
    ensures tail == EncodeUInt(0) + EncodeUInt(0)
  {
    hide *;
    FillerIsZero(tail);
    AllZeroes(tail[32..]);
    ZeroWord();
    FirstWord(tail);
    WordRecovered(tail[..32], 0);
    assert tail == tail[..32] + tail[32..];
  }

  lemma FillerIsZero(tail: Data)
    requires IsStandardTail(tail) && DecodeUInt(tail) == 0
    ensures |tail| == 64 && forall i | 0 <= i < 32 :: tail[32..][i] == 0
  {
    hide DecodeUInt;
    assert forall i | 0 <= i < 32 :: tail[32..][i] == tail[32 + i];
  }

  lemma EmptyTailIsStandard(tail: Data)
    requires tail == EncodeUInt(0) + EncodeUInt(0)
    ensures IsStandardTail(tail) && DecodeUInt(tail) == 0
  {
    hide EncodeUInt, DecodeUInt, Zeroes, ToNat;
    ZeroWord();
    EncodedWord(0);
    DecodeFirstWord(EncodeUInt(0), EncodeUInt(0));
    forall i | 32 <= i < 64 ensures tail[i] == 0 {
      ZeroesAt(32, i - 32);
    }
  }

  lemma ZeroWord()
    ensures EncodeUInt(0) == Zeroes(32)
  {
    hide EncodeUInt, Zeroes, ToNat;
    EncodedWord(0);
    ToNatInjective(EncodeUInt(0), Zeroes(32));
  }

  /** The end of a call is rebuilt exactly when it is laid out as `setup` does. */
  lemma TailRebuilt(tail: Data, data: Data)
    requires DecodeBytes(tail) == Returns(data)
    ensures EncodeBytes(data) + EmptyDataFiller(data) == tail <==> IsStandardTail(tail)
  {
    hide EncodeUInt, DecodeUInt, RightPadded, WholeWords;
    var count := DecodeUInt(tail);
    EmptyTail(tail);
    EmptyBytes();
    if count > 0 {
      EncodeDecodedBytes(tail, data);
    }
    if data != [] && EncodeBytes(data) + EmptyDataFiller(data) == tail {
      StandardBytes(data);
      assert EncodeBytes(data) + [] == EncodeBytes(data);
    }
  }

  lemma EmptyBytes()
    ensures EncodeBytes([]) == EncodeUInt(0)
  {
    hide EncodeUInt;
    assert EncodeUInt(0) + [] == EncodeUInt(0);
  }

  lemma AddressWordBelow(word: Data, a: Address)
    requires a.Valid() && word == EncodeAddress(a)
    ensures DecodeUInt(word) < ADDRESS_SPAN
  {
    hide EncodeUInt, DecodeUInt, AddressValue;
    AddressValueBound(a);
    ReadWord(word, AddressValue(a));
  }

  lemma LayoutTail(s: SetupArguments, args: Data, rest: Data)
    requires IsLayout(s, args, rest)
    ensures |args| >= 32 * (8 + |s.owners|) && args[32 * (8 + |s.owners|)..] == EncodeBytes(s.data) + rest
  {
    hide HeadWords, OwnerWords, Flatten, EncodeBytes, Slot;
  }

  /** What `setup` lays out has the standard layout. */
  lemma LayoutIsStandard(s: SetupArguments, args: Data)
    requires s.Valid() && |s.data| <= MAX_INT && |args| <= MAX_INT && IsLayout(s, args, EmptyDataFiller(s.data))
    ensures IsStandardSetup(args, |s.owners|)
  {
    hide EncodeUInt, DecodeUInt, EncodeAddress, HeadWords, EncodeBytes, Slot, OwnerWords, Flatten, IsStandardTail,
         EmptyDataFiller, AllValid, IsLayout, EthHex;
    var rest := EmptyDataFiller(s.data);
    LayoutTail(s, args, rest);
    HeadSlots(s, args, rest);
    ReadWord(Slot(args, 0), 7 * 32);
    ReadWord(Slot(args, 3), 7 * 32 + 1 * 32 + |s.owners| * 32);
    AddressWordBelow(Slot(args, 2), s.to);
    AddressWordBelow(Slot(args, 4), s.paymentToken);
    AddressWordBelow(Slot(args, 6), s.paymentReceiver);
    OwnerSlots(s, args, rest);
    TailIsStandard(s.data);
  }

  lemma WordsAt(args: Data, words: seq<Data>)
    requires 32 * (8 + |words|) <= |args| && forall i | 0 <= i < |words| :: |words[i]| == 32
    requires args[32 * 8..][..32 * |words|] == Flatten(words)
    ensures forall k | 8 <= k < 8 + |words| :: Slot(args, k) == words[k - 8]
  {
    hide Flatten, Slot;
    FlattenSlots(words, []);
    var part := args[32 * 8..][..32 * |words|];
    assert Flatten(words) + [] == part;
    forall k | 8 <= k < 8 + |words| ensures Slot(args, k) == words[k - 8] {
      SlotOfPart(args, |words|, k);
      assert Slot(part, k - 8) == words[k - 8];
    }
  }

  lemma SlotOfPart(args: Data, count: nat, k: nat)
    requires 32 * (8 + count) <= |args| && 8 <= k < 8 + count
    ensures Slot(args, k) == Slot(args[32 * 8..][..32 * count], k - 8)
  {
    var part := args[32 * 8..][..32 * count];
    assert forall i | 0 <= i < |part| :: part[i] == args[32 * 8 + i];
  }

  lemma OwnerSlots(s: SetupArguments, args: Data, rest: Data)
    requires AllValid(s.owners) && IsLayout(s, args, rest)
    ensures |args| >= 32 * (8 + |s.owners|)
    ensures forall k | 8 <= k < 8 + |s.owners| :: DecodeUInt(Slot(args, k)) < ADDRESS_SPAN
  {
    hide DecodeUInt, EncodeAddress, IsLayout, Flatten, Slot, EthHex;
    OwnerBytes(s, args, rest);
    WordsAt(args, OwnerWords(s.owners));
    forall k | 8 <= k < 8 + |s.owners| ensures DecodeUInt(Slot(args, k)) < ADDRESS_SPAN {
      AddressWordBelow(Slot(args, k), s.owners[k - 8]);
    }
  }

  lemma TailIsStandard(data: Data)
    requires |data| <= MAX_INT
    ensures IsStandardTail(EncodeBytes(data) + EmptyDataFiller(data))
  {
    hide EncodeBytes, DecodeBytes, EmptyDataFiller, IsStandardTail;
    DecodeEncodedBytes(data, EmptyDataFiller(data));
    TailRebuilt(EncodeBytes(data) + EmptyDataFiller(data), data);
  }

  /** Re-encoding an accepted call gives the same bytes exactly when its offsets are those `setup` computes,
      every address word is below 2^160, and the data is followed by its padding, the filler when it is empty,
      and nothing else. */
  lemma EncodeDecodedSetup(hash: Hash, data: Data, s: SetupArguments)
    requires |data| <= MAX_INT && DecodeSetup(hash, data) == Returns(Some(s))
    ensures Setup(hash, s) == data <==> IsStandardSetup(data[|Method(hash, SIGNATURE)|..], |s.owners|)
  {
    hide *;
    var head := Method(hash, SIGNATURE);
    AcceptedCall(hash, data, s);
    var args := data[|head|..];
    var filler := EmptyDataFiller(s.data);
    SetupBytes(hash, s);
    if IsStandardSetup(args, |s.owners|) {
      ArgumentsRebuilt(args, s);
      assert data == head + args;
    }
    if Setup(hash, s) == data {
      assert args == ArgumentBytes(s) + filler;
      ArgumentsAreStandard(s, args);
    }
  }

  lemma AcceptedCall(hash: Hash, data: Data, s: SetupArguments)
    requires |data| <= MAX_INT && DecodeSetup(hash, data) == Returns(Some(s))
    ensures Method(hash, SIGNATURE) <= data
    ensures DecodeArguments(data[|Method(hash, SIGNATURE)|..]) == Returns(s)
  {
    hide Method, DecodeArguments;
  }

  lemma BytesFound(args: Data, offset: nat, data: Data)
    requires BytesAt(args, offset) == Returns(data)
    ensures offset <= |args| && DecodeBytes(args[offset..]) == Returns(data)
  {
    hide DecodeBytes;
  }

  lemma StandardParts(args: Data, n: nat)
    requires IsStandardSetup(args, n)
    ensures |args| >= 32 * (8 + n) && IsStandardTail(args[32 * (8 + n)..])
    ensures DecodeUInt(Slot(args, 3)) == 32 * (8 + n)
  {
    hide DecodeUInt, Slot, IsStandardTail;
  }

  lemma ArgumentsRebuilt(args: Data, s: SetupArguments)
    requires DecodeArguments(args) == Returns(s) && IsStandardSetup(args, |s.owners|)
    ensures ArgumentBytes(s) + EmptyDataFiller(s.data) == args
  {
    hide *;
    var n := |s.owners|;
    StandardParts(args, n);
    HeadsRebuilt(args, s);
    DecodedArguments(args, s);
    BytesFound(args, 32 * (8 + n), s.data);
    TailRebuilt(args[32 * (8 + n)..], s.data);
    Assembled(s, args, n);
  }

  lemma Assembled(s: SetupArguments, args: Data, n: nat)
    requires |args| >= 32 * (8 + n)
    requires Flatten(HeadWords(s)) == args[..32 * 8]
    requires Flatten(OwnerWords(s.owners)) == args[32 * 8..32 * (8 + n)]
    requires EncodeBytes(s.data) + EmptyDataFiller(s.data) == args[32 * (8 + n)..]
    ensures ArgumentBytes(s) + EmptyDataFiller(s.data) == args
  {
    hide HeadWords, OwnerWords, Flatten, EncodeBytes, EmptyDataFiller;
    var heads, owners := args[..32 * 8], args[32 * 8..32 * (8 + n)];
    assert args == heads + owners + args[32 * (8 + n)..];
    assert heads + owners + EncodeBytes(s.data) + EmptyDataFiller(s.data) ==
           heads + owners + (EncodeBytes(s.data) + EmptyDataFiller(s.data));
  }

  lemma ArgumentsAreStandard(s: SetupArguments, args: Data)
    requires |args| <= MAX_INT && DecodeArguments(args) == Returns(s)
    requires args == ArgumentBytes(s) + EmptyDataFiller(s.data)
    ensures IsStandardSetup(args, |s.owners|)
  {
    hide *;
    ArgumentsLayout(s, EmptyDataFiller(s.data));
    DecodedIsSound(args, s);
    LayoutIsStandard(s, args);
  }

  lemma DecodedIsSound(args: Data, s: SetupArguments)
    requires |args| <= MAX_INT && DecodeArguments(args) == Returns(s)
    ensures s.Valid() && |s.data| <= MAX_INT
  {
    hide DecodeArguments, DecodeAddress, DecodeUInt, Slot;
    DecodedArguments(args, s);
    DecodedIsValid(Slot(args, 2));
    DecodedIsValid(Slot(args, 4));
    DecodedIsValid(Slot(args, 6));
    var offset := DecodeUInt(Slot(args, 0));
    var buffer := args[offset..][32..];
    AddressesByWord(buffer, |s.owners|);
    forall i | 0 <= i < |s.owners| ensures s.owners[i].Valid() {
      DecodedIsValid(Slot(buffer, i));
    }
  }

  lemma RecoveredSameBytes(s: SetupArguments)
    ensures ArgumentBytes(Recovered(s)) == ArgumentBytes(s)
  {
    hide Flatten, EncodeBytes, HeadWords, OwnerWords, AllNormalised;
    RecoveredOwners(s.owners);
    RecoveredHeads(s);
  }

  lemma RecoveredOwners(owners: seq<Address>)
    ensures OwnerWords(AllNormalised(owners)) == OwnerWords(owners)
  {
    hide EncodeAddress, Normalised;
    forall i | 0 <= i < |owners| ensures EncodeAddress(Normalised(owners[i])) == EncodeAddress(owners[i]) {
      NormalisedEncodes(owners[i]);
    }
  }

  lemma RecoveredHeads(s: SetupArguments)
    ensures HeadWords(Recovered(s)) == HeadWords(s)
  {
    hide EncodeUInt, EncodeAddress, Normalised;
    NormalisedEncodes(s.to);
    NormalisedEncodes(s.paymentToken);
    NormalisedEncodes(s.paymentReceiver);
    PaymentEncodes(s.payment);
  }

  lemma PaymentEncodes(n: nat)
    ensures EncodeUInt(n % WORD_SPAN) == EncodeUInt(n)
  {
    hide EncodeUInt, ToNat;
    EncodeUIntValue(n);
    EncodedWord(n % WORD_SPAN);
    ToNatInjective(EncodeUInt(n % WORD_SPAN), EncodeUInt(n));
  }

  /** The standard encoding of a call with empty data is accepted, and re-encoded with one more word. */
  lemma StandardEmptyDataGrows(hash: Hash, s: SetupArguments)
    requires s.Valid() && s.data == [] && s.threshold <= MAX_INT
    requires |ArgumentBytes(s)| <= MAX_INT
    ensures var head := Selector(hash("setup(address[],uint256,address,bytes,address,uint256,address)"));
      var data := head + EncTuple(SetupTuple(s));
      && DecodeSetup(hash, data) == Returns(Some(Recovered(s)))
      && Setup(hash, Recovered(s)) == data + EncodeUInt(0)
  {
    hide *;
    MethodConforms(hash, SIGNATURE);
    SignatureIs();
    ArgumentsConform(s);
    assert ArgumentBytes(s) + [] == ArgumentBytes(s);
    DecodeWithRest(hash, s, []);
    RecoveredSameBytes(s);
    RecoveredData(s);
    SetupBytes(hash, Recovered(s));
    assert Method(hash, SIGNATURE) + (ArgumentBytes(s) + EncodeUInt(0)) ==
           Method(hash, SIGNATURE) + ArgumentBytes(s) + EncodeUInt(0);
  }

  lemma SignatureIs()
    ensures SIGNATURE == "setup(address[],uint256,address,bytes,address,uint256,address)"
  {}

  lemma RecoveredData(s: SetupArguments)
    ensures Recovered(s).data == s.data
    ensures s.data == [] ==> EmptyDataFiller(s.data) == EncodeUInt(0)
  {
    hide EncodeUInt, Normalised;
  }

  /** No owners, one signature, no addresses, no data, no payment. */
  const PLAIN := SetupArguments([], 1, Address("0x"), [], Address("0x"), 0, Address("0x"))

  /** Its standard encoding is one such call. */
  lemma PlainCallGrows(hash: Hash)
    ensures var head := Selector(hash("setup(address[],uint256,address,bytes,address,uint256,address)"));
      var data := head + EncTuple(SetupTuple(PLAIN));
      && DecodeSetup(hash, data) == Returns(Some(Recovered(PLAIN)))
      && Setup(hash, Recovered(PLAIN)) != data
  {
    hide DecodeSetup, Setup, Method, EncTuple, SetupTuple, EncodeUInt, Recovered, EthHex, ArgumentBytes;
    EthHexOfPrefixed("");
    assert "0x" + "" == "0x";
    PlainLength();
    StandardEmptyDataGrows(hash, PLAIN);
  }

  lemma PlainLength()
    ensures |ArgumentBytes(PLAIN)| == 9 * 32
  {
    hide EncodeUInt, EncodeAddress, Flatten, Slot;
    EmptyBytes();
    HeadWordsAreWords(PLAIN);
    FlattenSlots(HeadWords(PLAIN), []);
    OwnerWordsAreWords([]);
  }
}
