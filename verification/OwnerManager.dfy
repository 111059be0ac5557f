/** Owner management calls: MultisigWallet/MultisigWalletDomainModel/SafeOwnerManagerContractProxy.swift. */
module OwnerManager {
  import opened Outcomes
  import opened Sequences
  import opened Bytes
  import opened Hex
  import opened AbiCodec
  import opened AbiReference

  const ADD_OWNER := "addOwnerWithThreshold(address,uint256)"
  const SWAP_OWNER := "swapOwner(address,address,address)"

  // ----- Calls made of words only -----

  lemma CallOfWords(hash: Hash, signature: string, words: seq<Data>)
    requires forall i | 0 <= i < |words| :: |words[i]| == 32
    ensures var call, head := Invocation(hash, signature, words), Method(hash, signature);
      && |call| == |head| + 32 * |words| && head <= call
      && forall i | 0 <= i < |words| :: Slot(call[|head|..], i) == words[i]
  {
    hide Method, Slot;
    var call, head := Invocation(hash, signature, words), Method(hash, signature);
    FlattenSlots(words, []);
    assert call[|head|..] == Flatten(words) + [];
  }

  // ----- Adding an owner -----

  datatype AddOwner = AddOwner(owner: Address, threshold: nat)

  function EncodeAddOwner(hash: Hash, a: AddOwner): Data {
    Invocation(hash, ADD_OWNER, [EncodeAddress(a.owner), EncodeUInt(a.threshold)])
  }

  function DecodeAddOwner(hash: Hash, data: Data): Outcome<Option<AddOwner>> {
    var selector := Method(hash, ADD_OWNER);
    if !(|data| == |selector| + 2 * 32 && selector <= data) then Returns(None)
    else
      var args := data[|selector|..];
      var threshold := DecodeUInt(Slot(args, 1));
      if threshold > MAX_INT then Traps else Returns(Some(AddOwner(DecodeAddress(Slot(args, 0)), threshold)))
  }

  lemma DecodeEncodedAddOwner(hash: Hash, a: AddOwner)
    requires a.owner.Valid() && a.threshold <= MAX_INT
    ensures DecodeAddOwner(hash, EncodeAddOwner(hash, a)) ==
            Returns(Some(AddOwner(Normalised(a.owner), a.threshold)))
  {
    hide EncodeUInt, DecodeUInt, EncodeAddress, DecodeAddress, Normalised, Method, Invocation, Slot;
    var words := [EncodeAddress(a.owner), EncodeUInt(a.threshold)];
    CallOfWords(hash, ADD_OWNER, words);
    var args := EncodeAddOwner(hash, a)[|Method(hash, ADD_OWNER)|..];
    assert Slot(args, 0) == words[0] && Slot(args, 1) == words[1];
    ReadAddress(words[0], a.owner);
    ReadWord(words[1], a.threshold);
  }

  /** Re-encoding an accepted call: the same bytes exactly when the address word is below 2^160. */
  lemma EncodeDecodedAddOwner(hash: Hash, data: Data, a: AddOwner)
    requires DecodeAddOwner(hash, data) == Returns(Some(a))
    ensures EncodeAddOwner(hash, a) == data <==> DecodeUInt(data[|Method(hash, ADD_OWNER)|..]) < ADDRESS_SPAN
  {
    hide EncodeUInt, DecodeUInt, EncodeAddress, DecodeAddress, Method, Slot, Flatten;
    var head := Method(hash, ADD_OWNER);
    var args := data[|head|..];
    var w := seq(2, i requires 0 <= i < 2 => Slot(args, i));
    WordsOfData(args, 2);
    EncodeDecodedAddress(w[0]);
    EncodeDecodedUInt(w[1]);
    assert args[32 * 0..] == args;
    FirstWordIsSlot(args, 0);
    var words := [EncodeAddress(a.owner), EncodeUInt(a.threshold)];
    CallOfWords(hash, ADD_OWNER, words);
    if EncodeAddress(a.owner) == w[0] {
      assert words == w;
      assert EncodeAddOwner(hash, a) == data;
    }
  }

  // ----- Swapping an owner -----

  datatype SwapOwner = SwapOwner(previous: Address, outgoing: Address, incoming: Address)

  function EncodeSwapOwner(hash: Hash, s: SwapOwner): Data {
    Invocation(hash, SWAP_OWNER, [EncodeAddress(s.previous), EncodeAddress(s.outgoing), EncodeAddress(s.incoming)])
  }

  function DecodeSwapOwner(hash: Hash, data: Data): Option<SwapOwner> {
    var selector := Method(hash, SWAP_OWNER);
    if !(|data| == |selector| + 3 * 32 && selector <= data) then None
    else
      var args := data[|selector|..];
      Some(SwapOwner(DecodeAddress(Slot(args, 0)), DecodeAddress(Slot(args, 1)), DecodeAddress(Slot(args, 2))))
  }

  lemma DecodeEncodedSwapOwner(hash: Hash, s: SwapOwner)
    requires s.previous.Valid() && s.outgoing.Valid() && s.incoming.Valid()
    ensures DecodeSwapOwner(hash, EncodeSwapOwner(hash, s)) ==
            Some(SwapOwner(Normalised(s.previous), Normalised(s.outgoing), Normalised(s.incoming)))
  {
    hide EncodeAddress, DecodeAddress, Normalised, Method, Invocation, Slot;
    var words := [EncodeAddress(s.previous), EncodeAddress(s.outgoing), EncodeAddress(s.incoming)];
    CallOfWords(hash, SWAP_OWNER, words);
    var args := EncodeSwapOwner(hash, s)[|Method(hash, SWAP_OWNER)|..];
    assert Slot(args, 0) == words[0] && Slot(args, 1) == words[1] && Slot(args, 2) == words[2];
    ReadAddress(words[0], s.previous);
    ReadAddress(words[1], s.outgoing);
    ReadAddress(words[2], s.incoming);
  }

  /** Re-encoding an accepted call: the same bytes exactly when all three address words are below 2^160. */
  lemma EncodeDecodedSwapOwner(hash: Hash, data: Data, s: SwapOwner)
    requires DecodeSwapOwner(hash, data) == Some(s)
    ensures EncodeSwapOwner(hash, s) == data <==>
            forall i | 0 <= i < 3 :: DecodeUInt(Slot(data[|Method(hash, SWAP_OWNER)|..], i)) < ADDRESS_SPAN
  {
    hide DecodeUInt, EncodeAddress, DecodeAddress, Method, Slot, Flatten;
    var head := Method(hash, SWAP_OWNER);
    var args := data[|head|..];
    var w := seq(3, i requires 0 <= i < 3 => Slot(args, i));
    WordsOfData(args, 3);
    EncodeDecodedAddress(w[0]);
    EncodeDecodedAddress(w[1]);
    EncodeDecodedAddress(w[2]);
    var words := [EncodeAddress(s.previous), EncodeAddress(s.outgoing), EncodeAddress(s.incoming)];
    CallOfWords(hash, SWAP_OWNER, words);
    if words == w {
      assert EncodeSwapOwner(hash, s) == data;
    }
  }

  /** The argument decoders as written: a length and selector guard, then words consumed from the front. */
  method DecodeAddOwnerArguments(hash: Hash, data: Data) returns (r: Outcome<Option<AddOwner>>)
    ensures r == DecodeAddOwner(hash, data)
  {
    hide DecodeUInt, DecodeAddress, Method;
    var selector := Method(hash, ADD_OWNER);
    if !(|data| == |selector| + 2 * 32 && Prefix(data, |selector|) == selector) {
      return Returns(None);
    }
    var input := data[|selector|..];
    ghost var args := input;
    assert input == args[32 * 0..];
    FirstWordIsSlot(args, 0);
    var newOwner := DecodeAddress(input);
    input := input[32..];
    FirstWordIsSlot(args, 1);
    var threshold := DecodeUInt(input);
    if threshold > MAX_INT {
      return Traps;
    }
    return Returns(Some(AddOwner(newOwner, threshold)));
  }

  method DecodeSwapOwnerArguments(hash: Hash, data: Data) returns (r: Option<SwapOwner>)
    ensures r == DecodeSwapOwner(hash, data)
  {
    hide DecodeUInt, DecodeAddress, Method;
    var selector := Method(hash, SWAP_OWNER);
    if !(|data| == |selector| + 3 * 32 && Prefix(data, |selector|) == selector) {
      return None;
    }
    var input := data[|selector|..];
    ghost var args := input;
    assert input == args[32 * 0..];
    FirstWordIsSlot(args, 0);
    var prevOwner := DecodeAddress(input);
    input := input[32..];
    FirstWordIsSlot(args, 1);
    var outgoing := DecodeAddress(input);
    input := input[32..];
    FirstWordIsSlot(args, 2);
    var incoming := DecodeAddress(input);
    return Some(SwapOwner(prevOwner, outgoing, incoming));
  }

  /** Which calls are recognised: the selector and exactly the words of the arguments; a threshold that is no
      machine integer stops the process. */
  lemma DecodeOutcome(hash: Hash, data: Data)
    ensures var head := Selector(hash("addOwnerWithThreshold(address,uint256)"));
      var isCall := head <= data && |data| == |head| + 64;
      && (DecodeAddOwner(hash, data) == Returns(None) <==> !isCall)
      && (DecodeAddOwner(hash, data).Traps? <==> isCall && DecodeUInt(Slot(data[|head|..], 1)) > MAX_INT)
    ensures var head := Selector(hash("swapOwner(address,address,address)"));
      DecodeSwapOwner(hash, data) == None <==> !(head <= data && |data| == |head| + 96)
  {
    hide DecodeUInt, DecodeAddress, Method;
    MethodConforms(hash, ADD_OWNER);
    MethodConforms(hash, SWAP_OWNER);
  }

  // ----- Conformance -----

  /** The arguments of a call, all of them words. */
  function WordTuple(values: seq<nat>): AbiTuple {
    if values == [] then End else Member(Uint(values[0]), WordTuple(values[1..]))
  }

  lemma {:induction false} WordTupleConforms(values: seq<nat>, offset: nat)
    ensures Heads(WordTuple(values), offset) == EncItems(values) && Tails(WordTuple(values)) == []
  {
    hide BigEndian;
    if values != [] {
      WordTupleConforms(values[1..], offset);
    }
  }

  /** A call whose arguments are words only has the standard encoding. */
  lemma CallConforms(hash: Hash, signature: string, values: seq<nat>)
    ensures Invocation(hash, signature, Words(values)) == Method(hash, signature) + EncTuple(WordTuple(values))
  {
    hide Method, EncodeUInt;
    EncodeTupleIsWords(values);
    EncodeTupleConforms(values);
    WordTupleConforms(values, 32 * Count(WordTuple(values)));
    assert EncItems(values) + [] == EncItems(values);
  }

  lemma AddOwnerConforms(hash: Hash, a: AddOwner)
    ensures EncodeAddOwner(hash, a) ==
            Selector(hash("addOwnerWithThreshold(address,uint256)")) +
            EncTuple(Member(Uint(AddressValue(a.owner)), Member(Uint(a.threshold), End)))
  {
    hide Method, Invocation, EncodeUInt, AddressValue, EncTuple;
    MethodConforms(hash, ADD_OWNER);
    var values := [AddressValue(a.owner), a.threshold];
    CallConforms(hash, ADD_OWNER, values);
    assert values[1..] == [a.threshold] && values[1..][1..] == [];
    assert WordTuple(values[1..]) == Member(Uint(a.threshold), End);
    assert Words(values) == [EncodeAddress(a.owner), EncodeUInt(a.threshold)];
  }

  lemma SwapOwnerConforms(hash: Hash, s: SwapOwner)
    ensures EncodeSwapOwner(hash, s) ==
            Selector(hash("swapOwner(address,address,address)")) +
            EncTuple(Member(Uint(AddressValue(s.previous)),
                     Member(Uint(AddressValue(s.outgoing)),
                     Member(Uint(AddressValue(s.incoming)), End))))
  {
    hide Method, Invocation, EncodeUInt, AddressValue, EncTuple;
    MethodConforms(hash, SWAP_OWNER);
    var values := [AddressValue(s.previous), AddressValue(s.outgoing), AddressValue(s.incoming)];
    CallConforms(hash, SWAP_OWNER, values);
    assert values[1..] == [AddressValue(s.outgoing), AddressValue(s.incoming)];
    assert values[1..][1..] == [AddressValue(s.incoming)] && values[1..][1..][1..] == [];
    assert WordTuple(values[1..][1..]) == Member(Uint(AddressValue(s.incoming)), End);
    assert WordTuple(values[1..]) == Member(Uint(AddressValue(s.outgoing)), WordTuple(values[1..][1..]));
    assert Words(values) == [EncodeAddress(s.previous), EncodeAddress(s.outgoing), EncodeAddress(s.incoming)];
  }

  // ----- The previous owner -----

  /** The first position whose address has the wanted lower-case text, or the length. */
  function FirstIndex(owners: seq<Address>, text: string): (k: nat)
    ensures k <= |owners|
    ensures k < |owners| ==> Lower(owners[k].text) == text
    ensures forall i | 0 <= i < k :: Lower(owners[i].text) != text
  {
    if owners == [] then 0
    else if Lower(owners[0].text) == text then 0
    else 1 + FirstIndex(owners[1..], text)
  }

  function Sentinel(): Address {
    AddressText(LeftPadded([1], 20))
  }

  /** The sentinel is the address of value 1, in normalised form. */
  lemma SentinelIsOne()
    ensures Sentinel().Valid() && AddressValue(Sentinel()) == 1 && Sentinel() == Normalised(Sentinel())
  {
    hide EthHex, AddressText;
    AddressTextBytes(LeftPadded([1], 20));
    assert [1][..0] == [];
  }

  /** `previousOwner(to:)`, given the node's reply to `getOwners()`. */
  function PreviousOwner(reply: Data, owner: Address): Outcome<Option<Address>> {
    var owners :- DecodeArrayAddress(reply);
    Returns(PreviousIn(owners, Lower(owner.text)))
  }

  function PreviousIn(owners: seq<Address>, text: string): Option<Address> {
    var index := FirstIndex(owners, text);
    if index == |owners| then None
    else if index > 0 then Some(owners[index - 1])
    else Some(Sentinel())
  }

  lemma NormalisedIsLower(a: Address)
    ensures Lower(Normalised(a).text) == Normalised(a).text
  {
    hide EthHex, LeftPadded, ToNat;
    var digits := ToHex(LeftPadded(EthHex(a.text), 20));
    assert Lower("0x" + digits) == "0x" + Lower(digits);
  }

  /** For the reply that encodes a list of distinct owners, the previous owner of the i-th one is its
      predecessor in the list headed by the sentinel, and anyone else has none. */
  lemma PreviousOwnerIsPredecessor(owners: seq<Address>, owner: Address)
    requires AllValid(owners) && |EncodeArrayAddress(owners)| <= MAX_INT && Distinct(AllNormalised(owners))
    ensures forall i | 0 <= i < |owners| && Lower(owner.text) == Normalised(owners[i]).text ::
              PreviousOwner(EncodeArrayAddress(owners), owner) ==
              Returns(Some(([Sentinel()] + AllNormalised(owners))[i]))
    ensures Address(Lower(owner.text)) !in AllNormalised(owners) ==>
              PreviousOwner(EncodeArrayAddress(owners), owner) == Returns(None)
  {
    hide EncodeArrayAddress, DecodeArrayAddress, Normalised, Sentinel, Lower, PreviousIn, Distinct;
    DecodeEncodedAddressArray(owners);
    forall i | 0 <= i < |owners| ensures Lower(Normalised(owners[i]).text) == Normalised(owners[i]).text {
      NormalisedIsLower(owners[i]);
    }
    PredecessorInList(AllNormalised(owners), Lower(owner.text));
  }

  lemma PredecessorInList(listed: seq<Address>, text: string)
    requires Distinct(listed) && forall i | 0 <= i < |listed| :: Lower(listed[i].text) == listed[i].text
    ensures forall i | 0 <= i < |listed| && text == listed[i].text ::
              PreviousIn(listed, text) == Some(([Sentinel()] + listed)[i])
    ensures Address(text) !in listed ==> PreviousIn(listed, text) == None
  {
    hide Sentinel, Lower;
    var index := FirstIndex(listed, text);
    forall i | 0 <= i < |listed| && text == listed[i].text ensures index == i {
      assert listed[i] == Address(text);
      assert index < |listed|;
      assert listed[index] == listed[i];
    }
  }
}
