/** The `transfer` call of the "Methods" section of EIP-20:
    MultisigWallet/MultisigWalletDomainModel/ERC20TokenContractProxy.swift. */
module TokenTransfer {
  import opened Outcomes
  import opened Bytes
  import opened AbiCodec
  import opened AbiReference

  const SIGNATURE := "transfer(address,uint256)"

  datatype Transfer = Transfer(recipient: Address, amount: nat)

  function EncodeTransfer(hash: Hash, t: Transfer): Data {
    Invocation(hash, SIGNATURE, [EncodeAddress(t.recipient), EncodeUInt(t.amount)])
  }

  /** What `decodedTransfer` computes: nothing for another call or for extra bytes, a trap for missing ones. */
  function DecodedTransfer(hash: Hash, data: Data): Outcome<Option<Transfer>> {
    var head := Method(hash, SIGNATURE);
    if !(head <= data) then Returns(None)
    else
      var args := data[|head|..];
      if |args| < 64 then Traps
      else if |args| > 64 then Returns(None)
      else Returns(Some(Transfer(DecodeAddress(Slot(args, 0)), DecodeUInt(Slot(args, 1)))))
  }

  /** The decoder as written, consuming the arguments from the front. */
  method DecodeTransfer(hash: Hash, data: Data) returns (r: Outcome<Option<Transfer>>)
    ensures r == DecodedTransfer(hash, data)
  {
    hide DecodeUInt, DecodeAddress, Method;
    var head := Method(hash, SIGNATURE);
    if Prefix(data, |head|) != head {
      assert !(head <= data);
      return Returns(None);
    }
    var argumentsData := data[|head|..];
    ghost var args := argumentsData;
    var recipient := DecodeAddress(argumentsData);
    if |argumentsData| < 32 {
      return Traps;
    }
    argumentsData := argumentsData[32..];
    var amount := DecodeUInt(argumentsData);
    if |argumentsData| < 32 {
      return Traps;
    }
    argumentsData := argumentsData[32..];
    if argumentsData != [] {
      return Returns(None);
    }
    assert args[32 * 0..] == args;
    FirstWordIsSlot(args, 0);
    FirstWordIsSlot(args, 1);
    return Returns(Some(Transfer(recipient, amount)));
  }

  lemma TransferBytes(hash: Hash, t: Transfer)
    ensures EncodeTransfer(hash, t) == Method(hash, SIGNATURE) + (EncodeAddress(t.recipient) + EncodeUInt(t.amount))
  {
    hide EncodeUInt, EncodeAddress, Method;
    var a, b := EncodeAddress(t.recipient), EncodeUInt(t.amount);
    FlattenConcat([a], [b]);
    FlattenOne(a);
    FlattenOne(b);
    assert [a, b] == [a] + [b];
  }

  /** Decoding an encoded transfer gives its recipient, normalised, and its amount modulo 2^256. */
  lemma DecodeEncodedTransfer(hash: Hash, t: Transfer)
    requires t.recipient.Valid()
    ensures DecodedTransfer(hash, EncodeTransfer(hash, t)) ==
            Returns(Some(Transfer(Normalised(t.recipient), t.amount % WORD_SPAN)))
    ensures t.amount < WORD_SPAN ==> DecodedTransfer(hash, EncodeTransfer(hash, t)) ==
                                     Returns(Some(Transfer(Normalised(t.recipient), t.amount)))
  {
    hide EncodeUInt, DecodeUInt, EncodeAddress, DecodeAddress, Normalised, Method, EncodeTransfer;
    TransferBytes(hash, t);
    var a, b := EncodeAddress(t.recipient), EncodeUInt(t.amount);
    var data, head := EncodeTransfer(hash, t), Method(hash, SIGNATURE);
    assert data[|head|..] == a + b;
    assert Slot(a + b, 0) == a && Slot(a + b, 1) == b;
    ReadAddress(a, t.recipient);
    ReadWord(b, t.amount);
  }

  /** An accepted call is re-encoded to the same bytes exactly when its address word is below 2^160. */
  lemma EncodeDecodedTransfer(hash: Hash, data: Data, t: Transfer)
    requires DecodedTransfer(hash, data) == Returns(Some(t))
    ensures EncodeTransfer(hash, t) == data <==>
            DecodeUInt(data[|Method(hash, SIGNATURE)|..]) < ADDRESS_SPAN
  {
    hide EncodeUInt, DecodeUInt, EncodeAddress, DecodeAddress, Method, EncodeTransfer;
    var head := Method(hash, SIGNATURE);
    var args := data[|head|..];
    var a, b := Slot(args, 0), Slot(args, 1);
    assert args == a + b && args[32 * 0..] == args;
    FirstWordIsSlot(args, 0);
    EncodeDecodedAddress(a);
    EncodeDecodedUInt(b);
    TransferBytes(hash, t);
    var a' := EncodeAddress(t.recipient);
    assert data == head + (a + b);
    if EncodeTransfer(hash, t) == data {
      assert a' == (head + (a' + b))[|head|..|head| + 32];
      assert a == data[|head|..|head| + 32];
    }
  }

  /** Which calls are transfers: exactly two words after the selector; fewer stop the process. */
  lemma TransferOutcome(hash: Hash, data: Data)
    ensures var head := Selector(hash("transfer(address,uint256)"));
      && (DecodedTransfer(hash, data).Traps? <==> head <= data && |data| < |head| + 64)
      && (DecodedTransfer(hash, data) == Returns(None) <==> !(head <= data) || |data| > |head| + 64)
  {
    hide DecodeUInt, DecodeAddress, Method;
    MethodConforms(hash, SIGNATURE);
  }

  lemma TransferConforms(hash: Hash, t: Transfer)
    ensures EncodeTransfer(hash, t) ==
            Selector(hash("transfer(address,uint256)")) +
            EncTuple(Member(Uint(AddressValue(t.recipient)), Member(Uint(t.amount), End)))
  {
    hide EncodeUInt, BigEndian, AddressValue, Method, EncodeTransfer;
    MethodConforms(hash, SIGNATURE);
    TransferBytes(hash, t);
    EncodeUIntConforms(AddressValue(t.recipient));
    EncodeUIntConforms(t.amount);
    var tuple := Member(Uint(AddressValue(t.recipient)), Member(Uint(t.amount), End));
    assert Count(tuple.rest) == 1 && Count(tuple) == 2;
    assert Heads(tuple.rest, 64) == BigEndian(t.amount, 32) + [];
    assert Heads(tuple, 64) == BigEndian(AddressValue(t.recipient), 32) + Heads(tuple.rest, 64);
    assert Tails(tuple.rest) == [] && Tails(tuple) == [];
  }
}
