/** Incoming send-transaction messages: `handle(message: SendTransactionMessage)` of
    MultisigWallet/MultisigWalletApplication/WalletApplicationService.swift. */
module SendTransaction {
  import opened Outcomes
  import opened Bytes
  import opened Hex
  import opened AbiCodec
  import opened AbiReference
  import opened DecimalText
  import opened Transactions
  import TokenTransfer

  type Id = string
  type EthSignature = string

  datatype Message = Message(
    hash: Data, safe: Address, to: Address, value: int, data: Data, operation: WalletOperation,
    txGas: int, dataGas: int, operationalGas: int, gasPrice: int, gasToken: Address, nonce: int,
    signature: EthSignature)

  /** Hashing, address recovery, signature bytes, and the wallets and owner the application knows. */
  datatype Environment = Environment(
    selectorHash: Hash,
    hashOf: (string, Parameters) -> Data,
    recover: (Data, EthSignature) -> Option<Address>,
    signatureData: EthSignature -> Data,
    wallets: map<Address, string>,
    extensionOwner: Option<Address>)

  datatype Row = Row(id: Id, tx: TransactionState)

  // ----- The draft -----

  function IntText(n: int): string {
    if n < 0 then "-" + Decimal(-n) else Decimal(n)
  }

  const MIN_INT: int := -0x8000_0000_0000_0000

  function Estimation(m: Message): FeeEstimate {
    FeeEstimate(m.txGas, m.dataGas, m.operationalGas, TokenAmount(m.gasPrice, AtAddress(m.gasToken)))
  }

  /** The fee counts gas and data gas at the gas price; the sum of the two is a machine integer. */
  function FeeOf(m: Message): Outcome<TokenAmount> {
    if MIN_INT <= m.txGas + m.dataGas <= MAX_INT
    then Returns(TokenAmount((m.txGas + m.dataGas) * m.gasPrice, AtAddress(m.gasToken)))
    else Traps
  }

  /** What `update(transaction:with:)` sets: the message's fields, then the recipient and amount of a token
      transfer in its data. */
  function ParametersOf(env: Environment, m: Message): Outcome<Parameters> {
    var fee :- FeeOf(m);
    var transfer :- TokenTransfer.DecodedTransfer(env.selectorHash, m.data);
    var (recipient, amount) := match transfer
      case None => (m.to, TokenAmount(m.value, Ether))
      case Some(t) => (t.recipient, TokenAmount(t.amount, AtAddress(m.to)));
    Returns(Parameters(Some(m.safe), Some(recipient), Some(amount), Some(fee), Some(Estimation(m)), Some(m.data),
                       Some(m.operation), Some(IntText(m.nonce)), None))
  }

  // ----- The repository -----

  function FindHash(rows: seq<Row>, hash: Data): (k: nat)
    ensures k <= |rows|
    ensures k < |rows| ==> rows[k].tx.parameters.hash == Some(hash)
    ensures forall i | 0 <= i < k :: rows[i].tx.parameters.hash != Some(hash)
  {
    if rows == [] || rows[0].tx.parameters.hash == Some(hash) then 0 else 1 + FindHash(rows[1..], hash)
  }

  function Removed(rows: seq<Row>, id: Id): seq<Row> {
    if rows == [] then []
    else if rows[0].id == id then Removed(rows[1..], id)
    else [rows[0]] + Removed(rows[1..], id)
  }

  /** `INSERT OR REPLACE`: the saved row becomes the last. */
  function Saved(rows: seq<Row>, row: Row): seq<Row> {
    Removed(rows, row.id) + [row]
  }

  predicate NewId(rows: seq<Row>, id: Id) {
    forall i | 0 <= i < |rows| :: rows[i].id != id
  }

  lemma {:induction false} RemovedNew(rows: seq<Row>, id: Id)
    requires NewId(rows, id)
    ensures Removed(rows, id) == rows
  {
    if rows != [] {
      assert NewId(rows[1..], id);
      RemovedNew(rows[1..], id);
    }
  }

  lemma {:induction false} RemovedLast(rows: seq<Row>, row: Row)
    requires NewId(rows, row.id)
    ensures Removed(rows + [row], row.id) == rows
  {
    if rows == [] {
      assert rows + [row] == [row] && [row][1..] == [];
    } else {
      assert NewId(rows[1..], row.id);
      RemovedLast(rows[1..], row);
      assert (rows + [row])[1..] == rows[1..] + [row];
    }
  }

  class TransactionRepository {
    var rows: seq<Row>

    constructor ()
      ensures rows == []
    {
      rows := [];
    }

    method Save(row: Row)
      modifies this
      ensures rows == Saved(old(rows), row)
    {
      rows := Removed(rows, row.id) + [row];
    }

    method Remove(id: Id)
      modifies this
      ensures rows == Removed(old(rows), id)
    {
      rows := Removed(rows, id);
    }
  }

  // ----- The handler -----

  /** The message was signed by the browser extension. */
  predicate FromExtension(env: Environment, m: Message) {
    var sender := env.recover(m.hash, m.signature);
    && sender.Some? && env.extensionOwner.Some?
    && Lower(sender.value.text) == Lower(env.extensionOwner.value.text)
  }

  predicate Acceptable(env: Environment, m: Message, p: Parameters)
    requires m.safe in env.wallets
  {
    env.hashOf(env.wallets[m.safe], p) == m.hash && FromExtension(env, m)
  }

  function DraftOf(env: Environment, m: Message, start: Date): TransactionState
    requires m.safe in env.wallets
  {
    var tx := NewTransaction(env.wallets[m.safe], start);
    tx.(parameters := tx.parameters.(sender := Some(m.safe)))
  }

  function SignedOf(env: Environment, m: Message, p: Parameters, start: Date, now: Date): TransactionState
    requires m.safe in env.wallets && env.extensionOwner.Some?
  {
    TransactionState(env.wallets[m.safe], p.(hash := Some(m.hash)), Signing,
                     [Signature(env.signatureData(m.signature), env.extensionOwner.value)], None,
                     Timestamps(Some(start), Some(now), None, None, None))
  }

  /** What becomes of a filled draft: its parameters when it is accepted. Signing builds the owner's address
      from its text once more. */
  function Checked(env: Environment, m: Message): (r: Outcome<Option<Parameters>>)
    requires m.safe in env.wallets
    ensures r.Returns? && r.value.Some? ==> env.extensionOwner.Some?
  {
    var p :- ParametersOf(env, m);
    if !Acceptable(env, m, p) then Returns(None)
    else if !IsAddressText(env.extensionOwner.value) then Traps
    else Returns(Some(p))
  }

  /** What handling a message does to the stored rows, and what it returns. Every transaction the handler
      looks at, the new draft included, is first restored from its row. */
  function Handled(env: Environment, rows: seq<Row>, m: Message, id: Id, start: Date, now: Date)
    : (seq<Row>, Outcome<Option<Id>>)
  {
    var k := FindHash(rows, m.hash);
    if k < |rows| then
      match Restored(rows[k].tx, now)
      case Traps => (rows, Traps)
      case Returns(tx) => (rows, Returns(if tx.status == Signing then Some(rows[k].id) else None))
    else if m.safe !in env.wallets then (rows, Returns(None))
    else
      var withDraft := rows + [Row(id, DraftOf(env, m, start))];
      if Restored(DraftOf(env, m, start), now).Traps? then (withDraft, Traps)
      else
        match Checked(env, m)
        case Traps => (withDraft, Traps)
        case Returns(None) => (rows, Returns(None))
        case Returns(Some(p)) => (rows + [Row(id, SignedOf(env, m, p, start, now))], Returns(Some(id)))
  }

  lemma DraftRestores(env: Environment, m: Message, start: Date, now: Date)
    requires m.safe in env.wallets
    ensures Restored(DraftOf(env, m, start), now) ==
            if IsAddressText(m.safe) then Returns(DraftOf(env, m, start)) else Traps
  {
    hide Restored, IsAddressText;
    RestoreStored(DraftOf(env, m, start), now);
  }

  /** The setters of `update(transaction:with:)`; false when one of its computations traps. */
  method UpdateTransaction(env: Environment, tx: Transaction, m: Message, now: Date) returns (ok: bool)
    requires tx.status == Draft && tx.parameters == NO_PARAMETERS.(sender := Some(m.safe))
    modifies tx
    ensures ok <==> ParametersOf(env, m).Returns?
    ensures ok ==> tx.State() == old(tx.State()).(parameters := ParametersOf(env, m).value,
                                                   dates := old(tx.dates).(updated := Some(now)))
  {
    hide Applied, TokenTransfer.DecodedTransfer, FeeOf, Estimation, IntText;
    tx.ChangeParameter(Recipient(Some(m.to)), now);
    tx.ChangeParameter(TransactionData(Some(m.data)), now);
    tx.ChangeParameter(Amount(Some(TokenAmount(m.value, Ether))), now);
    tx.ChangeParameter(Operation(Some(m.operation)), now);
    tx.ChangeParameter(Estimate(Some(Estimation(m))), now);
    var fee := FeeOf(m);
    if fee.Traps? {
      return false;
    }
    tx.ChangeParameter(Fee(Some(fee.value)), now);
    tx.ChangeParameter(Nonce(Some(IntText(m.nonce))), now);
    var transfer := TokenTransfer.DecodeTransfer(env.selectorHash, m.data);
    if transfer.Traps? {
      return false;
    }
    if transfer.value.Some? {
      var t := transfer.value.value;
      tx.ChangeParameter(Recipient(Some(t.recipient)), now);
      tx.ChangeParameter(Amount(Some(TokenAmount(t.amount, AtAddress(m.to)))), now);
    }
    return true;
  }

  /** The draft is filled in and checked; when it passes it is signed. */
  method FillAndSign(env: Environment, tx: Transaction, m: Message, start: Date, now: Date)
    returns (r: Outcome<bool>)
    requires m.safe in env.wallets && tx.State() == DraftOf(env, m, start)
    modifies tx
    ensures r.Traps? <==> Checked(env, m).Traps?
    ensures r.Returns? ==> r.value == Checked(env, m).value.Some?
    ensures r == Returns(true) ==> tx.State() == SignedOf(env, m, Checked(env, m).value.value, start, now)
  {
    hide ParametersOf, IsAddressText;
    var ok := UpdateTransaction(env, tx, m, now);
    if !ok {
      return Traps;
    }
    ParametersComplete(env, m);
    var hash := env.hashOf(tx.walletID, tx.parameters);
    if hash != m.hash {
      return Returns(false);
    }
    tx.ChangeParameter(WalletHash(Some(hash)), now);
    if !FromExtension(env, m) {
      return Returns(false);
    }
    tx.Proceed(now);
    if !IsAddressText(env.extensionOwner.value) {
      return Traps;
    }
    tx.Sign(Signature(env.signatureData(m.signature), env.extensionOwner.value), now);
    return Returns(true);
  }

  /** `newDraftTransaction(in:)`: a draft sent from the wallet, saved. */
  method StoreDraft(env: Environment, repository: TransactionRepository, m: Message, id: Id, start: Date)
    returns (draft: TransactionState)
    requires m.safe in env.wallets
    modifies repository
    ensures draft == DraftOf(env, m, start) && repository.rows == Saved(old(repository.rows), Row(id, draft))
  {
    var created := new Transaction(env.wallets[m.safe], start);
    created.ChangeParameter(Sender(Some(m.safe)), start);
    draft := created.Snapshot();
    repository.Save(Row(id, draft));
  }

  /** A message with a new hash: a draft is stored first, and removed again when a check fails. */
  method HandleNewMessage(
    env: Environment, repository: TransactionRepository, m: Message, id: Id, start: Date, now: Date)
    returns (r: Outcome<Option<Id>>)
    requires NewId(repository.rows, id) && FindHash(repository.rows, m.hash) == |repository.rows|
    requires m.safe in env.wallets
    modifies repository
    ensures (repository.rows, r) == Handled(env, old(repository.rows), m, id, start, now)
  {
    hide Checked, SignedOf, Removed, Restored, FindHash, DraftOf, NewId;
    ghost var before := repository.rows;
    RemovedNew(before, id);
    var draft := StoreDraft(env, repository, m, id, start);
    RemovedLast(before, Row(id, draft));
    var restored := Restored(draft, now);
    if restored.Traps? {
      return Traps;
    }
    DraftRestores(env, m, start, now);
    var tx := new Transaction.FromState(restored.value);
    var accepted := FillAndSign(env, tx, m, start, now);
    if accepted.Traps? {
      return Traps;
    }
    if !accepted.value {
      repository.Remove(id);
      return Returns(None);
    }
    var signed := tx.Snapshot();
    repository.Save(Row(id, signed));
    return Returns(Some(id));
  }

  method Handle(env: Environment, repository: TransactionRepository, m: Message, id: Id, start: Date, now: Date)
    returns (r: Outcome<Option<Id>>)
    requires NewId(repository.rows, id)
    modifies repository
    ensures (repository.rows, r) == Handled(env, old(repository.rows), m, id, start, now)
  {
    hide Checked, SignedOf, Restored, DraftOf, FindHash, NewId;
    var k := FindHash(repository.rows, m.hash);
    if k < |repository.rows| {
      var found := Restored(repository.rows[k].tx, now);
      if found.Traps? {
        return Traps;
      }
      return Returns(if found.value.status == Signing then Some(repository.rows[k].id) else None);
    }
    if m.safe !in env.wallets {
      return Returns(None);
    }
    r := HandleNewMessage(env, repository, m, id, start, now);
  }

  // ----- One message -----

  /** Stored transactions came out of transaction objects. */
  predicate AllWellFormed(rows: seq<Row>) {
    forall i | 0 <= i < |rows| :: WellFormed(rows[i].tx)
  }

  lemma FoundStatus(tx: TransactionState, now: Date)
    requires WellFormed(tx)
    ensures Restored(tx, now).Returns? <==> Readable(tx)
    ensures Restored(tx, now).Returns? ==> Restored(tx, now).value.status == tx.status
  {
    hide Restored, Readable;
    RestoreStored(tx, now);
  }

  /** The computation on the message's contents traps: the gas sum does not fit a machine integer, or the
      data is a token transfer cut short. */
  predicate Unreadable(env: Environment, m: Message) {
    var head := Method(env.selectorHash, TokenTransfer.SIGNATURE);
    || !(MIN_INT <= m.txGas + m.dataGas <= MAX_INT)
    || (head <= m.data && |m.data| < |head| + 64)
  }

  lemma UnreadableIff(env: Environment, m: Message)
    ensures ParametersOf(env, m).Traps? <==> Unreadable(env, m)
  {
    hide DecodeUInt, DecodeAddress, Method;
  }

  /** Handling traps exactly when a transaction with the message's hash is stored but cannot be restored, or
      there is none, the wallet is known, and the wallet's address, the message's contents or, for a message
      that passes both checks, the owner's address is malformed. */
  lemma TrapsIff(env: Environment, rows: seq<Row>, m: Message, id: Id, start: Date, now: Date)
    requires AllWellFormed(rows)
    ensures Handled(env, rows, m, id, start, now).1.Traps? <==>
            var k := FindHash(rows, m.hash);
            if k < |rows| then !Readable(rows[k].tx)
            else
              && m.safe in env.wallets
              && (|| !IsAddressText(m.safe) || Unreadable(env, m)
                  || (Acceptable(env, m, ParametersOf(env, m).value) && !IsAddressText(env.extensionOwner.value)))
  {
    hide ParametersOf, Unreadable, IsAddressText, Restored, Readable, FromExtension, DraftOf;
    UnreadableIff(env, m);
    var k := FindHash(rows, m.hash);
    if k < |rows| {
      FoundStatus(rows[k].tx, now);
    } else if m.safe in env.wallets {
      DraftRestores(env, m, start, now);
    }
  }

  predicate UniqueHashes(rows: seq<Row>) {
    forall i, j | 0 <= i < j < |rows| ::
      rows[i].tx.parameters.hash.Some? ==> rows[i].tx.parameters.hash != rows[j].tx.parameters.hash
  }

  /** The data is a token transfer: the selector and exactly two words. */
  predicate IsTransfer(env: Environment, m: Message) {
    var head := Selector(env.selectorHash("transfer(address,uint256)"));
    head <= m.data && |m.data| == |head| + 64
  }

  /** The parameters a message asks for, field by field. */
  predicate Carries(env: Environment, m: Message, p: Parameters) {
    && p.sender == Some(m.safe) && p.data == Some(m.data) && p.operation == Some(m.operation)
    && p.nonce == Some(IntText(m.nonce)) && p.hash == None
    && p.feeEstimate == Some(FeeEstimate(m.txGas, m.dataGas, m.operationalGas,
                                         TokenAmount(m.gasPrice, AtAddress(m.gasToken))))
    && p.fee == Some(TokenAmount((m.txGas + m.dataGas) * m.gasPrice, AtAddress(m.gasToken)))
    && (if IsTransfer(env, m) then
          var args := m.data[|m.data| - 64..];
          && p.recipient == Some(DecodeAddress(args[..32]))
          && p.amount == Some(TokenAmount(ToNat(args[32..]), AtAddress(m.to)))
        else p.recipient == Some(m.to) && p.amount == Some(TokenAmount(m.value, Ether)))
  }

  /** The message's signer, recovered from its hash, is the extension's owner, in whatever case they are written. */
  predicate SignedByOwner(env: Environment, m: Message) {
    && env.extensionOwner.Some? && env.recover(m.hash, m.signature).Some?
    && Lower(env.recover(m.hash, m.signature).value.text) == Lower(env.extensionOwner.value.text)
  }

  /** A row as accepted from a message: signing, for the message's wallet, with its hash, which is the hash of
      what it asks for, and signed by the extension owner. */
  predicate Accepted(env: Environment, m: Message, row: Row) {
    && row.tx.status == Signing && WellFormed(row.tx)
    && m.safe in env.wallets && row.tx.walletID == env.wallets[m.safe] && row.tx.transactionHash == None
    && row.tx.parameters.hash == Some(m.hash) && Carries(env, m, row.tx.parameters.(hash := None))
    && env.hashOf(row.tx.walletID, row.tx.parameters.(hash := None)) == m.hash
    && SignedByOwner(env, m)
    && row.tx.signatures == [Signature(env.signatureData(m.signature), env.extensionOwner.value)]
  }

  lemma ParametersCarried(env: Environment, m: Message)
    requires ParametersOf(env, m).Returns?
    ensures Carries(env, m, ParametersOf(env, m).value)
  {
    hide DecodeAddress, IntText, Method, ToNat;
    MethodConforms(env.selectorHash, TokenTransfer.SIGNATURE);
    var head := Selector(env.selectorHash("transfer(address,uint256)"));
    if IsTransfer(env, m) {
      var args := m.data[|head|..];
      assert args == m.data[|m.data| - 64..];
      assert Slot(args, 0) == args[..32] && Slot(args, 1) == args[32..];
      assert Prefix(args[32..], 32) == args[32..];
    }
  }

  /** Data that encodes a transfer: its recipient and its amount of the token called. */
  lemma TransferCarried(env: Environment, m: Message, p: Parameters, t: TokenTransfer.Transfer)
    requires m.data == TokenTransfer.EncodeTransfer(env.selectorHash, t)
    requires t.recipient.Valid() && t.amount < WORD_SPAN && Carries(env, m, p)
    ensures p.recipient == Some(Normalised(t.recipient))
    ensures p.amount == Some(TokenAmount(t.amount, AtAddress(m.to)))
  {
    hide EncodeUInt, DecodeAddress, ToNat, EncodeAddress, Normalised, Method, IntText;
    MethodConforms(env.selectorHash, TokenTransfer.SIGNATURE);
    TokenTransfer.TransferBytes(env.selectorHash, t);
    var a, b := EncodeAddress(t.recipient), EncodeUInt(t.amount);
    var args := m.data[|m.data| - 64..];
    assert args == a + b && args[..32] == a && args[32..] == b;
    ReadAddress(a, t.recipient);
    EncodedWord(t.amount);
  }

  /** The nonce's text is the numeral it spells, with a minus in front of a negative one. */
  lemma IntTextSpells(n: int)
    ensures n >= 0 ==> IsDigits(IntText(n)) && Value(IntText(n)) == n
    ensures n < 0 ==> IntText(n)[0] == '-' && IsDigits(IntText(n)[1..]) && Value(IntText(n)[1..]) == -n
    ensures n == 0 ==> IntText(n) == "0"
    ensures n > 0 ==> IntText(n)[0] != '0'
    ensures n < 0 ==> IntText(n)[1] != '0'
  {
    hide Decimal, Value, IsDigits;
    var k := if n < 0 then -n else n;
    ValueOfDecimal(k);
    DecimalLength(k);
    if k > 0 {
      DecimalNoLeadingZero(k);
    }
    if n < 0 {
      assert IntText(n)[1..] == Decimal(k);
    }
  }

  /** When a new message adds a transaction: the wallet is known, what it asks for can be computed and has the
      message's hash, the extension owner signed it, and the addresses involved can be built. */
  lemma AddedIff(env: Environment, rows: seq<Row>, m: Message, id: Id, start: Date, now: Date, p: Parameters)
    requires FindHash(rows, m.hash) == |rows| && Carries(env, m, p)
    ensures Handled(env, rows, m, id, start, now).1 == Returns(Some(id)) <==>
            && m.safe in env.wallets && IsAddressText(m.safe) && !Unreadable(env, m)
            && env.hashOf(env.wallets[m.safe], p) == m.hash
            && SignedByOwner(env, m) && IsAddressText(env.extensionOwner.value)
  {
    hide ParametersOf, Unreadable, IsAddressText, Restored, DraftOf, Carries, FindHash, SignedOf;
    UnreadableIff(env, m);
    if m.safe in env.wallets {
      DraftRestores(env, m, start, now);
      if ParametersOf(env, m).Returns? {
        ParametersCarried(env, m);
        CarriedOnce(env, m, p, ParametersOf(env, m).value);
      }
    }
  }

  lemma CarriedOnce(env: Environment, m: Message, p: Parameters, q: Parameters)
    requires Carries(env, m, p) && Carries(env, m, q)
    ensures p == q
  {
    hide IsTransfer, IntText, DecodeAddress, ToNat;
  }

  predicate SoundStore(rows: seq<Row>) {
    UniqueHashes(rows) && AllWellFormed(rows)
  }

  /** Row by row: a row without a hash, or with a new one, may be appended. */
  lemma AppendKeepsSound(rows: seq<Row>, row: Row)
    requires SoundStore(rows) && WellFormed(row.tx)
    requires row.tx.parameters.hash.Some? ==> FindHash(rows, row.tx.parameters.hash.value) == |rows|
    ensures SoundStore(rows + [row])
    ensures row.tx.parameters.hash.Some? ==> FindHash(rows + [row], row.tx.parameters.hash.value) == |rows|
  {
    hide WellFormed;
    var after := rows + [row];
    assert forall i | 0 <= i < |rows| :: after[i] == rows[i];
    if row.tx.parameters.hash.Some? {
      var k := FindHash(after, row.tx.parameters.hash.value);
      assert k >= |rows|;
      assert after[|rows|] == row;
    }
  }

  lemma SignedIsAccepted(env: Environment, m: Message, id: Id, start: Date, now: Date)
    requires m.safe in env.wallets && Checked(env, m).Returns? && Checked(env, m).value.Some?
    ensures Accepted(env, m, Row(id, SignedOf(env, m, Checked(env, m).value.value, start, now)))
    ensures SignedOf(env, m, Checked(env, m).value.value, start, now).dates ==
            Timestamps(Some(start), Some(now), None, None, None)
  {
    hide ParametersOf, IsAddressText, Carries;
    ParametersComplete(env, m);
    ParametersCarried(env, m);
    var p := ParametersOf(env, m).value;
    assert p.(hash := Some(m.hash)).(hash := None) == p;
  }

  lemma DraftIsWellFormed(env: Environment, m: Message, start: Date)
    requires m.safe in env.wallets
    ensures WellFormed(DraftOf(env, m, start)) && DraftOf(env, m, start).parameters.hash == None
  {}

  lemma HandledKnown(env: Environment, rows: seq<Row>, m: Message, id: Id, start: Date, now: Date)
    requires AllWellFormed(rows) && FindHash(rows, m.hash) < |rows|
    ensures var found := rows[FindHash(rows, m.hash)];
      Handled(env, rows, m, id, start, now) ==
      (rows, if !Readable(found.tx) then Traps
             else Returns(if found.tx.status == Signing then Some(found.id) else None))
  {
    hide Restored, Readable, WellFormed;
    FoundStatus(rows[FindHash(rows, m.hash)].tx, now);
  }

  /** What a trap leaves behind: a draft from the wallet, with nothing else set. */
  function UnfinishedRow(env: Environment, m: Message, id: Id, start: Date): Row
    requires m.safe in env.wallets
  {
    Row(id, TransactionState(env.wallets[m.safe],
                             Parameters(Some(m.safe), None, None, None, None, None, None, None, None),
                             Draft, [], None, Timestamps(Some(start), Some(start), None, None, None)))
  }

  lemma DraftIsUnfinished(env: Environment, m: Message, id: Id, start: Date)
    requires m.safe in env.wallets
    ensures Row(id, DraftOf(env, m, start)) == UnfinishedRow(env, m, id, start)
  {}

  /** A new message changes nothing, stores a draft and traps, or stores an accepted transaction. */
  lemma HandledNew(env: Environment, rows: seq<Row>, m: Message, id: Id, start: Date, now: Date)
    requires SoundStore(rows) && FindHash(rows, m.hash) == |rows|
    ensures var (after, r) := Handled(env, rows, m, id, start, now);
      || (after == rows && r == Returns(None))
      || (r.Traps? && SoundStore(after) && m.safe in env.wallets && after == rows + [UnfinishedRow(env, m, id, start)])
      || (&& m.safe in env.wallets && Checked(env, m).Returns? && Checked(env, m).value.Some? && IsAddressText(m.safe)
          && after == rows + [Row(id, SignedOf(env, m, Checked(env, m).value.value, start, now))]
          && SoundStore(after) && FindHash(after, m.hash) == |rows| && r == Returns(Some(id)))
  {
    hide Restored, Checked, SignedOf, SoundStore, Accepted, DraftOf, FindHash, IsAddressText, UnfinishedRow;
    if m.safe in env.wallets {
      DraftIsWellFormed(env, m, start);
      DraftIsUnfinished(env, m, id, start);
      AppendKeepsSound(rows, Row(id, DraftOf(env, m, start)));
      DraftRestores(env, m, start, now);
      if Checked(env, m).Returns? && Checked(env, m).value.Some? {
        SignedIsAccepted(env, m, id, start, now);
        var row := Row(id, SignedOf(env, m, Checked(env, m).value.value, start, now));
        AcceptedRow(env, m, row);
        AppendKeepsSound(rows, row);
      }
    }
  }

  lemma AcceptedRow(env: Environment, m: Message, row: Row)
    requires Accepted(env, m, row)
    ensures row.tx.status == Signing && row.tx.parameters.hash == Some(m.hash) && WellFormed(row.tx)
  {
    hide WellFormed, Carries, SignedByOwner;
  }

  /** A message that is handled either leaves the store as it was or adds exactly one accepted transaction. */
  lemma HandledFacts(env: Environment, rows: seq<Row>, m: Message, id: Id, start: Date, now: Date)
    requires SoundStore(rows)
    ensures var (after, r) := Handled(env, rows, m, id, start, now);
      && (r.Returns? && after != rows ==>
            && after == rows + [Row(id, after[|rows|].tx)] && r == Returns(Some(id))
            && Accepted(env, m, after[|rows|])
            && after[|rows|].tx.dates == Timestamps(Some(start), Some(now), None, None, None))
      && (r.Traps? && after != rows ==>
            m.safe in env.wallets && after == rows + [UnfinishedRow(env, m, id, start)])
      && SoundStore(after)
      && rows <= after
      && (r.Returns? && r.value.Some? ==> var k := FindHash(after, m.hash);
            k < |after| && after[k].id == r.value.value && after[k].tx.status == Signing)
  {
    hide Handled, Checked, SignedOf, Accepted, FindHash, IsAddressText, Readable, WellFormed, UniqueHashes,
         UnfinishedRow;
    var (after, r) := Handled(env, rows, m, id, start, now);
    if FindHash(rows, m.hash) < |rows| {
      HandledKnown(env, rows, m, id, start, now);
    } else {
      HandledNew(env, rows, m, id, start, now);
      if r.Returns? && after != rows {
        SignedIsAccepted(env, m, id, start, now);
        AcceptedRow(env, m, after[|rows|]);
      }
    }
  }

  lemma ParametersComplete(env: Environment, m: Message)
    requires ParametersOf(env, m).Returns?
    ensures Complete(ParametersOf(env, m).value) && ParametersOf(env, m).value.hash == None
  {
    hide TokenTransfer.DecodedTransfer;
  }

  // ----- Runs of messages -----

  datatype Delivery = Delivery(message: Message, id: Id, start: Date, now: Date)

  function StoreAfter(env: Environment, rows: seq<Row>, deliveries: seq<Delivery>): seq<Row> {
    if deliveries == [] then rows
    else
      var d := deliveries[|deliveries| - 1];
      Handled(env, StoreAfter(env, rows, deliveries[..|deliveries| - 1]), d.message, d.id, d.start, d.now).0
  }

  function ReplyTo(env: Environment, rows: seq<Row>, deliveries: seq<Delivery>, i: nat): Outcome<Option<Id>>
    requires i < |deliveries|
  {
    var d := deliveries[i];
    Handled(env, StoreAfter(env, rows, deliveries[..i]), d.message, d.id, d.start, d.now).1
  }

  /** However many messages arrive, no hash is stored twice and nothing stored is lost or changed. */
  lemma {:induction false} RunKeepsUnique(env: Environment, rows: seq<Row>, deliveries: seq<Delivery>)
    requires SoundStore(rows)
    ensures SoundStore(StoreAfter(env, rows, deliveries))
    ensures rows <= StoreAfter(env, rows, deliveries)
  {
    hide Handled, SoundStore;
    if deliveries != [] {
      var d := deliveries[|deliveries| - 1];
      RunKeepsUnique(env, rows, deliveries[..|deliveries| - 1]);
      HandledFacts(env, StoreAfter(env, rows, deliveries[..|deliveries| - 1]), d.message, d.id, d.start, d.now);
    }
  }

  lemma {:induction false} StoreGrows(env: Environment, rows: seq<Row>, deliveries: seq<Delivery>, i: nat, j: nat)
    requires SoundStore(rows) && i <= j <= |deliveries|
    ensures StoreAfter(env, rows, deliveries[..i]) <= StoreAfter(env, rows, deliveries[..j])
    decreases j - i
  {
    hide Handled, SoundStore;
    if i < j {
      StoreGrows(env, rows, deliveries, i, j - 1);
      var before, d := deliveries[..j - 1], deliveries[j - 1];
      assert deliveries[..j][..j - 1] == before;
      RunKeepsUnique(env, rows, before);
      HandledFacts(env, StoreAfter(env, rows, before), d.message, d.id, d.start, d.now);
    }
  }

  lemma FindInLonger(a: seq<Row>, b: seq<Row>, hash: Data)
    requires a <= b && FindHash(a, hash) < |a|
    ensures FindHash(b, hash) == FindHash(a, hash)
  {
    var i := FindHash(a, hash);
    assert a[i] == b[i];
    assert forall j | 0 <= j < i :: b[j] == a[j];
  }

  /** What the addresses of a message must be for its transaction to be restored later. */
  predicate Storable(m: Message) {
    IsAddressText(m.to) && IsAddressText(m.gasToken)
  }

  lemma SignedReadable(env: Environment, m: Message, start: Date, now: Date)
    requires m.safe in env.wallets && Checked(env, m).Returns? && Checked(env, m).value.Some? && IsAddressText(m.safe)
    ensures Readable(SignedOf(env, m, Checked(env, m).value.value, start, now)) <==> Storable(m)
  {
    hide FromExtension, IsAddressText, DecodeAddress, DecodeUInt, Method;
    var transfer := TokenTransfer.DecodedTransfer(env.selectorHash, m.data).value;
    if transfer.Some? {
      DecodedIsAddressText(Slot(m.data[|Method(env.selectorHash, TokenTransfer.SIGNATURE)|..], 0));
    }
    var tx := SignedOf(env, m, Checked(env, m).value.value, start, now);
    assert tx.signatures[0].address == env.extensionOwner.value;
  }

  lemma DecodedIsAddressText(word: Data)
    ensures IsAddressText(DecodeAddress(word))
  {
    hide EthHex, Minimal;
    AddressOfValid(DecodeUInt(word));
  }

  /** A message answered with an identifier gets the same answer every time it is repeated, exactly when its
      hash was already known the first time or its recipient and gas token have the text of an address; a
      repetition traps otherwise. */
  lemma RepeatsReturnSameId(env: Environment, rows: seq<Row>, deliveries: seq<Delivery>, i: nat, j: nat)
    requires SoundStore(rows) && i < j < |deliveries|
    requires deliveries[i].message == deliveries[j].message
    requires ReplyTo(env, rows, deliveries, i).Returns? && ReplyTo(env, rows, deliveries, i).value.Some?
    ensures var before := StoreAfter(env, rows, deliveries[..i]);
      var m := deliveries[i].message;
      ReplyTo(env, rows, deliveries, j) ==
      if FindHash(before, m.hash) < |before| || Storable(m) then ReplyTo(env, rows, deliveries, i) else Traps
  {
    hide Handled, SoundStore, FindHash, Readable, Storable, StoreAfter, SignedOf, Checked, IsAddressText;
    var d, e, hash := deliveries[i], deliveries[j], deliveries[i].message.hash;
    var before := StoreAfter(env, rows, deliveries[..i]);
    var later := StoreAfter(env, rows, deliveries[..j]);
    RunKeepsUnique(env, rows, deliveries[..i]);
    RunKeepsUnique(env, rows, deliveries[..j]);
    SoundIsWellFormed(before);
    SoundIsWellFormed(later);
    if FindHash(before, hash) < |before| {
      StoreGrows(env, rows, deliveries, i, j);
      FindInLonger(before, later, hash);
      HandledKnown(env, before, d.message, d.id, d.start, d.now);
    } else {
      var after := StoreAfter(env, rows, deliveries[..i + 1]);
      StoreStep(env, rows, deliveries, i);
      HandledNew(env, before, d.message, d.id, d.start, d.now);
      StoreGrows(env, rows, deliveries, i + 1, j);
      FindInLonger(after, later, hash);
      SignedReadable(env, d.message, d.start, d.now);
      SignedIsAccepted(env, d.message, d.id, d.start, d.now);
      AcceptedRow(env, d.message, after[|before|]);
    }
    HandledKnown(env, later, e.message, e.id, e.start, e.now);
  }

  lemma SoundIsWellFormed(rows: seq<Row>)
    requires SoundStore(rows)
    ensures AllWellFormed(rows)
  {
    hide UniqueHashes, WellFormed;
  }

  lemma StoreStep(env: Environment, rows: seq<Row>, deliveries: seq<Delivery>, i: nat)
    requires i < |deliveries|
    ensures var before, d := StoreAfter(env, rows, deliveries[..i]), deliveries[i];
      StoreAfter(env, rows, deliveries[..i + 1]) == Handled(env, before, d.message, d.id, d.start, d.now).0
  {
    hide Handled;
    assert deliveries[..i + 1][..i] == deliveries[..i];
  }

  // ----- Messages that stop the process -----

  const EMPTY_ADDRESS := Address("0x")
  const TRANSFER_SELECTOR: Data := [0xa9, 0x05, 0x9c, 0xbb]

  /** One wallet, whose extension signs everything. */
  function ExampleEnvironment(): Environment {
    Environment(_ => TRANSFER_SELECTOR, (_, _) => [1], (_, _) => Some(EMPTY_ADDRESS), _ => [],
                map[EMPTY_ADDRESS := "wallet"], Some(EMPTY_ADDRESS))
  }

  function ExampleMessage(to: Address, data: Data): Message {
    Message([1], EMPTY_ADDRESS, to, 0, data, Call, 0, 0, 0, 0, EMPTY_ADDRESS, 0, "")
  }

  lemma EmptyIsAddressText()
    ensures IsAddressText(EMPTY_ADDRESS)
  {
    EthHexOfPrefixed("");
    assert "0x" + "" == "0x";
  }

  /** Data that is the bare selector of a token transfer. */
  lemma BareSelectorTraps()
    ensures var m := ExampleMessage(EMPTY_ADDRESS, TRANSFER_SELECTOR);
      Handled(ExampleEnvironment(), [], m, "id", 0.0, 0.0).1 == Traps
  {
    hide Handled, IsAddressText, Readable, FromExtension, ParametersOf;
    var env, m := ExampleEnvironment(), ExampleMessage(EMPTY_ADDRESS, TRANSFER_SELECTOR);
    TrapsIff(env, [], m, "id", 0.0, 0.0);
    assert Unreadable(env, m);
  }

  lemma PlainMessageChecks(to: Address)
    ensures var r := Checked(ExampleEnvironment(), ExampleMessage(to, [])); r.Returns? && r.value.Some?
  {
    hide IsAddressText;
    EmptyIsAddressText();
    assert !(TRANSFER_SELECTOR <= []);
    assert ParametersOf(ExampleEnvironment(), ExampleMessage(to, [])).Returns?;
  }

  /** A message whose recipient has no prefix is accepted, and stops the process when it is repeated. */
  lemma UnprefixedRepeatTraps()
    ensures var d := Delivery(ExampleMessage(UNPREFIXED, []), "id", 0.0, 0.0);
      && ReplyTo(ExampleEnvironment(), [], [d, d], 0) == Returns(Some("id"))
      && ReplyTo(ExampleEnvironment(), [], [d, d], 1) == Traps
  {
    hide Checked, IsAddressText, Restored, SignedOf, DraftOf;
    var env, m := ExampleEnvironment(), ExampleMessage(UNPREFIXED, []);
    var d := Delivery(m, "id", 0.0, 0.0);
    PlainMessageChecks(UNPREFIXED);
    EmptyIsAddressText();
    DraftRestores(env, m, 0.0, 0.0);
    assert [d, d][..0] == [];
    assert StoreAfter(env, [], []) == [];
    assert ReplyTo(env, [], [d, d], 0) == Returns(Some("id"));
    RepeatsReturnSameId(env, [], [d, d], 0, 1);
    UnprefixedIsNoAddressText();
  }

  lemma UnprefixedIsNoAddressText()
    ensures !IsAddressText(UNPREFIXED)
  {
    assert UNPREFIXED.text[1] == '0';
  }
}
