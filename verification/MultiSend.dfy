/** Batched transactions: MultisigWallet/MultisigWalletDomainModel/MultiSendContractProxy.swift. */
module MultiSend {
  import opened Outcomes
  import opened Bytes
  import opened AbiCodec
  import opened AbiReference

  const SIGNATURE := "multiSend(bytes)"

  datatype Operation = Call | DelegateCall

  datatype Transaction = Transaction(operation: Operation, to: Address, value: int, data: Data)

  predicate AllRecipientsValid(transactions: seq<Transaction>) {
    forall i | 0 <= i < |transactions| :: transactions[i].to.Valid()
  }

  function RawValue(operation: Operation): nat {
    if operation.Call? then 0 else 1
  }

  function Abs(value: int): nat {
    if value < 0 then -value else value
  }

  // ----- Packing -----

  function Packed(tx: Transaction): (r: Data)
    ensures |r| == 160 + WholeWords(|tx.data|)
  {
    EncodeUInt(RawValue(tx.operation)) + EncodeAddress(tx.to) + EncodeUInt(Abs(tx.value)) + EncodeUInt(4 * 32) +
    EncodeBytes(tx.data)
  }

  function PackedAll(transactions: seq<Transaction>): Data {
    if transactions == [] then [] else Packed(transactions[0]) + PackedAll(transactions[1..])
  }

  lemma {:induction false} PackedAllSnoc(transactions: seq<Transaction>, tx: Transaction)
    ensures PackedAll(transactions + [tx]) == PackedAll(transactions) + Packed(tx)
  {
    hide Packed;
    if transactions == [] {
      assert transactions + [tx] == [tx];
      assert PackedAll([tx]) == Packed(tx) + PackedAll([]);
      assert PackedAll([]) == [];
    } else {
      PackedAllSnoc(transactions[1..], tx);
      assert (transactions + [tx])[1..] == transactions[1..] + [tx];
    }
  }

  function MultiSendCall(hash: Hash, transactions: seq<Transaction>): Data {
    Invocation(hash, SIGNATURE, [EncodeUInt(32) + EncodeBytes(PackedAll(transactions))])
  }

  /** The batch as built: five pieces appended to one buffer for every transaction. */
  method BuildMultiSend(hash: Hash, transactions: seq<Transaction>) returns (call: Data)
    ensures call == MultiSendCall(hash, transactions)
  {
    hide EncodeUInt, EncodeAddress, EncodeBytes, PackedAll, Invocation;
    var bytesOffsetInTransaction := 4 * 32;
    var argumentData: Data := [];
    assert PackedAll(transactions[..0]) == [] by { PackedNone(transactions[..0]); }
    for i := 0 to |transactions|
      invariant argumentData == PackedAll(transactions[..i])
    {
      var tx := transactions[i];
      ghost var before := argumentData;
      argumentData := argumentData + EncodeUInt(RawValue(tx.operation));
      argumentData := argumentData + EncodeAddress(tx.to);
      argumentData := argumentData + EncodeUInt(Abs(tx.value));
      argumentData := argumentData + EncodeUInt(bytesOffsetInTransaction);
      argumentData := argumentData + EncodeBytes(tx.data);
      assert argumentData == before + Packed(tx);
      assert transactions[..i + 1] == transactions[..i] + [tx];
      PackedAllSnoc(transactions[..i], tx);
    }
    assert transactions[..|transactions|] == transactions;
    var bytesOffsetInInvocation := 32;
    call := Invocation(hash, SIGNATURE, [EncodeUInt(bytesOffsetInInvocation) + EncodeBytes(argumentData)]);
  }

  lemma PackedNone(transactions: seq<Transaction>)
    requires transactions == []
    ensures PackedAll(transactions) == []
  {}

  // ----- Unpacking -----

  /** What a packed transaction determines. */
  datatype Item = Item(operation: Operation, to: Address, value: nat, data: Data)

  function Carried(tx: Transaction): Item {
    Item(tx.operation, Normalised(tx.to), Abs(tx.value) % WORD_SPAN, tx.data)
  }

  function AllCarried(transactions: seq<Transaction>): seq<Item> {
    if transactions == [] then [] else [Carried(transactions[0])] + AllCarried(transactions[1..])
  }

  function ReadOperation(code: nat): Option<Operation> {
    if code == 0 then Some(Call) else if code == 1 then Some(DelegateCall) else None
  }

  function PackedLength(data: Data): nat
    requires |data| >= 160
  {
    160 + WholeWords(DecodeUInt(Slot(data, 4)))
  }

  function ReadItem(data: Data): Option<Item>
    requires |data| >= 160
  {
    var bytes := DecodeBytes(data[128..]);
    var operation := ReadOperation(DecodeUInt(Slot(data, 0)));
    if bytes.Traps? || operation.None? || DecodeUInt(Slot(data, 3)) != 128 || |data| < PackedLength(data) then None
    else Some(Item(operation.value, DecodeAddress(Slot(data, 1)), DecodeUInt(Slot(data, 2)), bytes.value))
  }

  /** A reader of packed batches, written from the layout: four words, a length, whole words of data. */
  function Unpack(data: Data): Option<seq<Item>>
    decreases |data|
  {
    if data == [] then Some([])
    else if |data| < 160 then None
    else
      var item := ReadItem(data);
      if item.None? || |data| < PackedLength(data) then None
      else
        var rest := Unpack(data[PackedLength(data)..]);
        if rest.None? then None else Some([item.value] + rest.value)
  }

  lemma PackedSlots(tx: Transaction, rest: Data)
    ensures var data := Packed(tx) + rest;
      && Slot(data, 0) == EncodeUInt(RawValue(tx.operation))
      && Slot(data, 1) == EncodeAddress(tx.to)
      && Slot(data, 2) == EncodeUInt(Abs(tx.value))
      && Slot(data, 3) == EncodeUInt(4 * 32)
      && data[128..] == EncodeBytes(tx.data) + rest
      && Slot(data, 4) == (EncodeBytes(tx.data) + rest)[..32]
  {
    hide EncodeUInt, EncodeAddress, EncodeBytes, RawValue, Abs;
  }

  lemma LengthRead(data: Data, bytes: Data, rest: Data)
    requires |bytes| <= MAX_INT && data == EncodeBytes(bytes) + rest
    ensures DecodeUInt(data[..32]) == |bytes|
  {
    hide EncodeUInt, ToNat, EncodeBytes;
    DecodeEncodedBytes(bytes, rest);
    assert Prefix(data, 32) == Prefix(data[..32], 32);
  }

  lemma OperationRead(operation: Operation)
    ensures RawValue(operation) < WORD_SPAN
    ensures ReadOperation(RawValue(operation)) == Some(operation)
  {}

  lemma FourWordsFit()
    ensures 4 * 32 < WORD_SPAN
  {}

  lemma LengthOfPacked(tx: Transaction, rest: Data)
    requires |tx.data| <= MAX_INT
    ensures |Packed(tx) + rest| >= 160
    ensures PackedLength(Packed(tx) + rest) == |Packed(tx)|
  {
    hide EncodeUInt, DecodeUInt, EncodeAddress, EncodeBytes, Packed, Slot, WholeWords;
    PackedSlots(tx, rest);
    LengthRead(EncodeBytes(tx.data) + rest, tx.data, rest);
  }

  lemma ItemFromSlots(data: Data, tx: Transaction)
    requires |data| >= 160 && |data| >= PackedLength(data)
    requires DecodeUInt(Slot(data, 0)) == RawValue(tx.operation)
    requires DecodeAddress(Slot(data, 1)) == Normalised(tx.to)
    requires DecodeUInt(Slot(data, 2)) == Abs(tx.value) % WORD_SPAN
    requires DecodeUInt(Slot(data, 3)) == 4 * 32
    requires DecodeBytes(data[128..]) == Returns(tx.data)
    ensures ReadItem(data) == Some(Carried(tx))
  {
    hide DecodeUInt, DecodeAddress, DecodeBytes, Normalised, RawValue, ReadOperation, Abs, PackedLength, Slot;
    OperationRead(tx.operation);
  }

  /** The reader takes one packed transaction off the front of the batch. */
  lemma ReadPacked(tx: Transaction, rest: Data)
    requires tx.to.Valid() && |tx.data| <= MAX_INT
    ensures |Packed(tx) + rest| >= 160
    ensures ReadItem(Packed(tx) + rest) == Some(Carried(tx))
    ensures PackedLength(Packed(tx) + rest) == |Packed(tx)|
  {
    hide *;
    var data := Packed(tx) + rest;
    LengthOfPacked(tx, rest);
    PackedSlots(tx, rest);
    OperationRead(tx.operation);
    ReadWord(Slot(data, 0), RawValue(tx.operation));
    ReadAddress(Slot(data, 1), tx.to);
    ReadWord(Slot(data, 2), Abs(tx.value));
    assert 4 * 32 < WORD_SPAN by { FourWordsFit(); }
    ReadWord(Slot(data, 3), 4 * 32);
    DecodeEncodedBytes(tx.data, rest);
    ItemFromSlots(data, tx);
  }

  /** Unpacking a packed batch gives every transaction back, in order. */
  lemma {:induction false} UnpackPacked(transactions: seq<Transaction>)
    requires AllRecipientsValid(transactions) && |PackedAll(transactions)| <= MAX_INT
    ensures Unpack(PackedAll(transactions)) == Some(AllCarried(transactions))
  {
    hide ReadItem, PackedLength, Packed, Carried, WholeWords;
    if transactions != [] {
      assert AllRecipientsValid(transactions[1..]);
      var tx, rest := transactions[0], PackedAll(transactions[1..]);
      UnpackPacked(transactions[1..]);
      ReadPacked(tx, rest);
      assert (Packed(tx) + rest)[|Packed(tx)|..] == rest;
    }
  }

  /** A batch is a whole number of words, so the outer byte string adds no padding. */
  lemma {:induction false} PackedWholeWords(transactions: seq<Transaction>)
    ensures |PackedAll(transactions)| % 32 == 0
  {
    hide Packed;
    if transactions != [] {
      PackedWholeWords(transactions[1..]);
    }
  }

  lemma MultiSendBytes(hash: Hash, transactions: seq<Transaction>)
    ensures MultiSendCall(hash, transactions) ==
            Selector(hash("multiSend(bytes)")) +
            (EncodeUInt(32) + (EncodeUInt(|PackedAll(transactions)|) + PackedAll(transactions)))
  {
    hide EncodeUInt, PackedAll, Method;
    MethodConforms(hash, SIGNATURE);
    var packed := PackedAll(transactions);
    PackedWholeWords(transactions);
    FlattenOne(EncodeUInt(32) + EncodeBytes(packed));
    assert EncodeBytes(packed) == EncodeUInt(|packed|) + packed;
  }

  /** The batch sits at a fixed distance from the start of the call. */
  lemma Payload(hash: Hash, transactions: seq<Transaction>)
    ensures |MultiSendCall(hash, transactions)| >= |Method(hash, SIGNATURE)| + 64
    ensures MultiSendCall(hash, transactions)[|Method(hash, SIGNATURE)| + 64..] == PackedAll(transactions)
  {
    hide MultiSendCall, EncodeUInt, PackedAll, Method;
    MethodConforms(hash, SIGNATURE);
    MultiSendBytes(hash, transactions);
    var head, packed := Method(hash, SIGNATURE), PackedAll(transactions);
    assert MultiSendCall(hash, transactions) == (head + EncodeUInt(32) + EncodeUInt(|packed|)) + packed;
  }

  /** Equal calls carry equal batches: same length, and item by item the same operation, normalised
      recipient, magnitude modulo 2^256 and data. */
  lemma UniquelyDecodable(hash: Hash, a: seq<Transaction>, b: seq<Transaction>)
    requires AllRecipientsValid(a) && AllRecipientsValid(b) && |MultiSendCall(hash, a)| <= MAX_INT
    requires MultiSendCall(hash, a) == MultiSendCall(hash, b)
    ensures |a| == |b| && forall i | 0 <= i < |a| :: Carried(a[i]) == Carried(b[i])
  {
    hide MultiSendCall, EncodeUInt, PackedAll, Method, Carried, Unpack, AllRecipientsValid, AllCarried;
    Payload(hash, a);
    Payload(hash, b);
    UnpackPacked(a);
    UnpackPacked(b);
    CarriedByPosition(a);
    CarriedByPosition(b);
  }

  lemma {:induction false} CarriedByPosition(transactions: seq<Transaction>)
    ensures |AllCarried(transactions)| == |transactions|
    ensures forall i | 0 <= i < |transactions| :: AllCarried(transactions)[i] == Carried(transactions[i])
  {
    hide Carried;
    if transactions != [] {
      CarriedByPosition(transactions[1..]);
    }
  }

  // ----- Conformance -----

  /** The fields of a packed transaction: 0 for a call and 1 for a delegate call, the recipient, the magnitude of
      the value, the data. */
  function TransactionTuple(tx: Transaction): AbiTuple {
    Member(Uint(if tx.operation == Call then 0 else 1),
    Member(Uint(AddressValue(tx.to)),
    Member(Uint(if tx.value < 0 then -tx.value else tx.value),
    Member(DynamicBytes(tx.data), End))))
  }

  /** A packed transaction is the standard encoding of its four fields. */
  lemma PackedConforms(tx: Transaction)
    ensures Packed(tx) == EncTuple(TransactionTuple(tx))
  {
    hide EncodeUInt, BigEndian, EncodeBytes, AddressValue, PadRight;
    EncodeUIntConforms(RawValue(tx.operation));
    EncodeUIntConforms(AddressValue(tx.to));
    EncodeUIntConforms(Abs(tx.value));
    EncodeUIntConforms(4 * 32);
    EncodeBytesConforms(tx.data);
    var t := TransactionTuple(tx);
    var bytes := t.rest.rest.rest;
    assert Count(bytes) == 1 && Count(t.rest.rest) == 2 && Count(t) == 4;
    assert Heads(bytes, 128) == BigEndian(128, 32) by {
      assert BigEndian(128, 32) + [] == BigEndian(128, 32);
    }
    assert Heads(t.rest.rest, 128) == BigEndian(Abs(tx.value), 32) + Heads(bytes, 128);
    assert Heads(t, 128) ==
           BigEndian(RawValue(tx.operation), 32) +
           (BigEndian(AddressValue(tx.to), 32) + Heads(t.rest.rest, 128));
    assert Tails(bytes) == Enc(bytes.value) + [];
    assert Tails(t.rest.rest) == [] + Tails(bytes);
    assert Tails(t) == [] + ([] + Tails(t.rest.rest));
  }

  lemma MultiSendConforms(hash: Hash, transactions: seq<Transaction>)
    ensures MultiSendCall(hash, transactions) ==
            Selector(hash("multiSend(bytes)")) + EncTuple(Member(DynamicBytes(PackedAll(transactions)), End))
  {
    hide EncodeUInt, BigEndian, EncodeBytes, PackedAll, Method, PadRight;
    MethodConforms(hash, SIGNATURE);
    var packed := PackedAll(transactions);
    EncodeUIntConforms(32);
    EncodeBytesConforms(packed);
    FlattenOne(EncodeUInt(32) + EncodeBytes(packed));
    var tuple := Member(DynamicBytes(packed), End);
    assert Count(tuple) == 1;
    assert Heads(tuple, 32) == BigEndian(32, 32) + [];
    assert Tails(tuple) == Enc(tuple.value) + [];
  }
}
